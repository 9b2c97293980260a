/** Splitting a search path into a list of entries and joining it again, as ltdl.c does
    where the C library has no argz functions. */
module Argz {
  import opened Machine
  import opened CanonicalPath
  import opened PathNames
  import opened Wrappers

  /** The entries of a path, each ended by EOS. Leading delimiters are ignored and
      consecutive ones are folded into one. */
  function SplitTo(s: string, n: nat, delim: char): string
    requires n <= |s|
  {
    if n == 0 then ""
    else
      var q := SplitTo(s, n - 1, delim);
      if s[n - 1] != delim then q + [s[n - 1]]
      else if q != "" && q[|q| - 1] != EOS then q + [EOS]
      else q
  }

  function Split(s: string, delim: char): string {
    SplitTo(s, |s|, delim) + [EOS]
  }

  function Joined(argz: string, sep: char): (s: string)
    ensures |s| == |argz|
    ensures forall i :: 0 <= i < |argz| ==> s[i] == if 1 <= i < |argz| - 1 && argz[i] == EOS then sep else argz[i]
  {
    seq(|argz|, i requires 0 <= i < |argz| => if 1 <= i < |argz| - 1 && argz[i] == EOS then sep else argz[i])
  }

  /** The maximal runs of characters between delimiters, as the string is read: those
      that are complete, and the one that may still grow. */
  datatype Runs = Runs(complete: seq<string>, open: string)

  function RunsOf(s: string, delim: char): Runs
    decreases |s|
  {
    if s == "" then Runs([], "")
    else
      var r, c := RunsOf(s[..|s| - 1], delim), s[|s| - 1];
      if c != delim then r.(open := r.open + [c])
      else if r.open == "" then r
      else Runs(r.complete + [r.open], "")
  }

  /** The entries of a path: its runs, and an empty one behind a delimiter at its end, or
      if there is no run. */
  function Entries(s: string, delim: char): seq<string> {
    RunsOf(s, delim).complete + [RunsOf(s, delim).open]
  }

  /** A list in memory: each entry with its terminator. */
  function Stored(entries: seq<string>): string
    decreases |entries|
  {
    if entries == [] then "" else Stored(entries[..|entries| - 1]) + entries[|entries| - 1] + [EOS]
  }

  lemma StoredNext(entries: seq<string>, entry: string)
    ensures Stored(entries + [entry]) == Stored(entries) + entry + [EOS]
  {
    assert (entries + [entry])[..|entries|] == entries;
  }

  lemma {:induction false} StoredEnds(entries: seq<string>)
    ensures entries != [] ==> Stored(entries) != "" && Stored(entries)[|Stored(entries)| - 1] == EOS
  {
  }

  lemma {:induction false} SplitIsRuns(s: string, n: nat, delim: char)
    requires n <= |s| && EOS !in s
    ensures var r := RunsOf(s[..n], delim);
            SplitTo(s, n, delim) == Stored(r.complete) + r.open && EOS !in r.open
    ensures SplitTo(s, n, delim) == "" ==> RunsOf(s[..n], delim).complete == []
  {
    hide Stored;
    if n > 0 {
      SplitIsRuns(s, n - 1, delim);
      assert s[..n][..n - 1] == s[..n - 1] && s[n - 1] in s;
      var r := RunsOf(s[..n - 1], delim);
      StoredEnds(r.complete);
      StoredNext(r.complete, r.open);
      var q := SplitTo(s, n - 1, delim);
      if r.open != "" {
        assert q[|q| - 1] == r.open[|r.open| - 1] && r.open[|r.open| - 1] in r.open;
      }
    } else {
      assert s[..0] == "" && Stored([]) == "" by {
        StoredNothing();
      }
    }
  }

  lemma StoredNothing()
    ensures Stored([]) == ""
  {
  }

  /** The list holds the entries of the path, in order. */
  lemma SplitStoresEntries(s: string, delim: char)
    requires EOS !in s
    ensures Split(s, delim) == Stored(Entries(s, delim))
  {
    SplitIsRuns(s, |s|, delim);
    assert s[..|s|] == s;
    StoredNext(RunsOf(s, delim).complete, RunsOf(s, delim).open);
  }

  function Concat(entries: seq<string>): string
    decreases |entries|
  {
    if entries == [] then "" else Concat(entries[..|entries| - 1]) + entries[|entries| - 1]
  }

  function Without(s: string, delim: char): string
    decreases |s|
  {
    if s == "" then ""
    else Without(s[..|s| - 1], delim) + (if s[|s| - 1] == delim then "" else [s[|s| - 1]])
  }

  lemma ConcatNext(entries: seq<string>, entry: string)
    ensures Concat(entries + [entry]) == Concat(entries) + entry
  {
    assert (entries + [entry])[..|entries|] == entries;
  }

  /** The entries hold all characters of the path but the delimiters, in order; only the
      last entry may be empty, and it is if the path is empty or ends with a delimiter. */
  lemma {:induction false} EntriesHoldPath(s: string, delim: char)
    ensures var es := Entries(s, delim);
            && es != [] && Concat(es) == Without(s, delim)
            && (forall k :: 0 <= k < |es| ==> delim !in es[k] && (es[k] == "" ==> k == |es| - 1))
            && (es[|es| - 1] == "" <==> s == "" || s[|s| - 1] == delim)
    decreases |s|
  {
    var r := RunsOf(s, delim);
    ConcatNext(r.complete, r.open);
    if s != "" {
      var init := s[..|s| - 1];
      var r0 := RunsOf(init, delim);
      EntriesHoldPath(init, delim);
      ConcatNext(r0.complete, r0.open);
      assert Entries(init, delim)[..|r0.complete|] == r0.complete;
    }
  }

  predicate Folded(s: string, delim: char) {
    (s != "" ==> s[0] != delim) && forall i :: 0 < i < |s| && s[i] == delim ==> s[i - 1] != delim
  }

  lemma {:induction false} SplitFolded(s: string, n: nat, delim: char)
    requires n <= |s| && Folded(s, delim) && EOS !in s
    ensures |SplitTo(s, n, delim)| == n
    ensures forall i :: 0 <= i < n ==> SplitTo(s, n, delim)[i] == if s[i] == delim then EOS else s[i]
  {
    if n > 0 {
      SplitFolded(s, n - 1, delim);
    }
  }

  lemma {:induction false} SplitShrinks(s: string, n: nat, delim: char)
    requires n <= |s| && EOS !in s && delim != EOS
    ensures |SplitTo(s, n, delim)| <= n
    ensures |SplitTo(s, n, delim)| == n ==> Folded(s[..n], delim)
    ensures |SplitTo(s, n, delim)| == n && n > 0 ==> (SplitTo(s, n, delim)[n - 1] == EOS <==> s[n - 1] == delim)
  {
    if n > 0 {
      SplitShrinks(s, n - 1, delim);
      assert s[n - 1] in s;
      assert forall i :: 0 <= i < n - 1 ==> s[..n][i] == s[..n - 1][i];
    }
  }

  lemma JoinGivesBack(s: string, delim: char)
    requires EOS !in s && delim != EOS
    ensures Joined(Split(s, delim), delim) == s + [EOS] <==> Folded(s, delim)
  {
    SplitShrinks(s, |s|, delim);
    assert s[..|s|] == s;
    if Folded(s, delim) {
      SplitFolded(s, |s|, delim);
      assert forall i :: 0 <= i < |s| ==> s[i] in s;
    }
  }

  predicate HasEntry(s: string, n: nat, delim: char)
    requires n <= |s|
  {
    exists k :: 0 <= k < n && s[k] != delim
  }

  lemma {:induction false} SplitNothing(s: string, n: nat, delim: char)
    requires n <= |s|
    ensures SplitTo(s, n, delim) == "" <==> !HasEntry(s, n, delim)
  {
    if n > 0 {
      SplitNothing(s, n - 1, delim);
      assert HasEntry(s, n, delim) <==> HasEntry(s, n - 1, delim) || s[n - 1] != delim;
    }
  }

  /** The list has a character besides its last EOS if and only if some character is
      not a delimiter. */
  lemma SplitLongExactly(s: string, delim: char)
    ensures |Split(s, delim)| >= 2 <==> HasEntry(s, |s|, delim)
  {
    SplitNothing(s, |s|, delim);
  }

  /** A call of argz_stringify: None if its unsigned index wraps below zero and runs
      past the end of the list. */
  function Stringify(argz: string, sep: char): Option<string> {
    if sep == EOS then Some(argz)
    else if |argz| < 2 then None
    else Some(Joined(argz, sep))
  }

  /** Splitting a path and joining it again. */
  function SplitJoin(s: string, delim: char): Option<string> {
    Stringify(Split(s, delim), delim)
  }

  /** That gives the path back if and only if it is not empty and no delimiter leads it
      or follows another; it runs past the list if and only if the path has nothing but
      delimiters. */
  lemma SplitJoinExactly(s: string, delim: char)
    requires EOS !in s && delim != EOS
    ensures SplitJoin(s, delim) == Some(s + [EOS]) <==> s != "" && Folded(s, delim)
    ensures SplitJoin(s, delim) == None <==> !HasEntry(s, |s|, delim)
  {
    JoinGivesBack(s, delim);
    SplitLongExactly(s, delim);
    if s != "" && Folded(s, delim) {
      assert s[0] != delim;
    }
  }

  /** The list of an empty path has one byte, and joining it runs past the list. */
  lemma EmptyPathOverruns()
    ensures Split("", PATHSEP) == [EOS] && SplitJoin("", PATHSEP) == None
  {
  }

  /** A path in normal form is given back if and only if it is not empty. */
  lemma NormalSplitsAndJoins(p: string, dirsep: char)
    requires EOS !in p && Normal(p, dirsep)
    ensures SplitJoin(p, PATHSEP) == Some(p + [EOS]) <==> p != ""
  {
    assert forall i :: 0 < i < |p| && p[i] == PATHSEP && p[i - 1] == PATHSEP ==> p[i - 1 + 1] != PATHSEP;
    SplitJoinExactly(p, PATHSEP);
  }

  /** So whatever two calls of canonicalize_path return is given back. */
  lemma CanonicalSplitsAndJoins(p: string, dirsep: char)
    requires EOS !in p && dirsep != PATHSEP && HasName(p, dirsep)
    ensures CallTwice(p, dirsep).Some?
    ensures var q := CallTwice(p, dirsep).value; SplitJoin(q, PATHSEP) == Some(q + [EOS])
  {
    hide Normal, SplitJoin, HasName;
    TwoCallsSuffice(p, dirsep);
    NoEos(p, |p|, dirsep);
    NoEos(Canonical(p, dirsep), |Canonical(p, dirsep)|, dirsep);
    NormalSplitsAndJoins(CallTwice(p, dirsep).value, dirsep);
  }

  method CreateSep(str: string, delim: char) returns (argz: array<char>, argzLen: nat)
    requires EOS !in str
    ensures fresh(argz) && argzLen <= argz.Length && argz[..argzLen] == Split(str, delim)
    ensures argz[..argzLen] == Stored(Entries(str, delim))
  {
    SplitStoresEntries(str, delim);
    argzLen := 1 + |str|;
    argz := new char[argzLen](_ => EOS);
    var q := 0;
    for p := 0 to |str|
      invariant q <= p && argzLen == 1 + |str| - (p - q) && argz[..q] == SplitTo(str, p, delim)
    {
      if str[p] == delim {
        if q > 0 && argz[q - 1] != EOS {
          argz[q] := EOS;
          q := q + 1;
        } else {
          argzLen := argzLen - 1;
        }
      } else {
        argz[q] := str[p];
        q := q + 1;
      }
    }
    argz[q] := EOS;
  }

  const SIZE_MAX := 0xffff_ffff_ffff_ffff

  /** Joins in place. The last EOS stays. The index is an unsigned number of 64 bits:
      for a list without a single character it wraps, and the first access lies past
      the end of any list. */
  method StringifyInPlace(argz: array<char>, argzLen: nat, sep: char) returns (overrun: bool)
    requires argzLen <= argz.Length < SIZE_MAX
    modifies argz
    ensures match Stringify(old(argz[..argzLen]), sep)
            case None => overrun && argz[..] == old(argz[..])
            case Some(s) => !overrun && argz[..argzLen] == s && argz[argzLen..] == old(argz[argzLen..])
    ensures overrun <==> sep != EOS && argzLen < 2
    ensures !overrun ==>
              forall k :: 0 <= k < argz.Length ==>
                            argz[k] == if 0 < k < argzLen - 1 && old(argz[k]) == EOS then sep else old(argz[k])
  {
    overrun := false;
    if sep == EOS {
      return;
    }
    var i: u64 := Wrap64(argzLen - 1);
    i := Wrap64((i as int) - 1);
    while i > 0
      invariant argzLen >= 2 ==> i < argzLen - 1
      invariant argzLen < 2 ==> i >= argz.Length && i > 0
      invariant forall k :: 0 <= k < argz.Length ==>
                              argz[k] == if i < k < argzLen - 1 && old(argz[k]) == EOS then sep else old(argz[k])
    {
      if i >= argz.Length {
        return true;
      }
      if argz[i] == EOS {
        argz[i] := sep;
      }
      i := Wrap64((i as int) - 1);
    }
  }
}
