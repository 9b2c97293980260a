/** The canonical form of search paths, as ltdl.c computes it.
    `dirsep` is the platform's second directory separator; on a platform without one
    it is '/' itself. Strings are C strings, so they hold no end-of-string character. */
module CanonicalPath {
  import opened PathNames
  import opened Wrappers

  const EOS: char := '\0'

  /** What the character at `src` adds, when so far nothing or something was copied. */
  function Copied(p: string, src: nat, atStart: bool, dirsep: char): string
    requires src < |p|
  {
    var last := src + 1 == |p|;
    if p[src] == PATHSEP && (atStart || last || p[src + 1] == PATHSEP) then ""
    else if !IsDir(p[src], dirsep) then [p[src]]
    else if !last && Ordinary(p[src + 1], dirsep) then "/"
    else ""
  }

  function CanonicalTo(p: string, n: nat, dirsep: char): string
    requires n <= |p|
  {
    if n == 0 then ""
    else CanonicalTo(p, n - 1, dirsep) + Copied(p, n - 1, CanonicalTo(p, n - 1, dirsep) == "", dirsep)
  }

  function Canonical(p: string, dirsep: char): string {
    CanonicalTo(p, |p|, dirsep)
  }

  /** One call of canonicalize_path, which asserts that its argument is not empty:
      None if that assertion fails. */
  function Call(p: string, dirsep: char): Option<string> {
    if p == "" then None else Some(Canonical(p, dirsep))
  }

  /** A second call on the result of the first. */
  function CallTwice(p: string, dirsep: char): Option<string> {
    if Call(p, dirsep).None? then None else Call(Call(p, dirsep).value, dirsep)
  }

  predicate CleanStart(p: string) {
    p != "" ==> p[0] != PATHSEP
  }

  /** No element is empty. */
  predicate CleanElements(p: string) {
    CleanStart(p) && FilledElements(p)
  }

  predicate Normal(p: string, dirsep: char) {
    CleanDirs(p, dirsep) && CleanElements(p)
  }

  /** What may follow a copied character: nothing empty, and nothing but an ordinary
      character behind a separator. */
  predicate Follows(a: char, b: char, dirsep: char) {
    IsDir(a, dirsep) ==> a == '/' && Ordinary(b, dirsep)
  }

  predicate Pairs(t: string, dirsep: char) {
    forall i :: 0 < i < |t| ==> Follows(t[i - 1], t[i], dirsep)
  }

  /** The last character copied so far agrees with the one that comes next. */
  predicate Ready(t: string, p: string, n: nat, dirsep: char)
    requires n <= |p|
  {
    t != "" && IsDir(t[|t| - 1], dirsep) ==> n < |p| && Follows(t[|t| - 1], p[n], dirsep)
  }

  lemma {:induction false} OnePass(p: string, n: nat, dirsep: char)
    requires n <= |p| && dirsep != PATHSEP
    ensures var t := CanonicalTo(p, n, dirsep); Pairs(t, dirsep) && Ready(t, p, n, dirsep) && CleanStart(t)
  {
    hide Pairs, Ready, CleanStart, Copied;
    if n > 0 {
      OnePass(p, n - 1, dirsep);
      CopyOne(CanonicalTo(p, n - 1, dirsep), p, n - 1, dirsep);
    } else {
      NothingCopied(p, dirsep);
    }
  }

  lemma NothingCopied(p: string, dirsep: char)
    ensures Pairs("", dirsep) && Ready("", p, 0, dirsep) && CleanStart("")
  {
  }

  lemma CopyOne(t: string, p: string, n: nat, dirsep: char)
    requires n < |p| && dirsep != PATHSEP && Pairs(t, dirsep) && Ready(t, p, n, dirsep) && CleanStart(t)
    ensures var t' := t + Copied(p, n, t == "", dirsep);
            Pairs(t', dirsep) && Ready(t', p, n + 1, dirsep) && CleanStart(t')
  {
    var c := Copied(p, n, t == "", dirsep);
    if c == "" {
      assert t + c == t;
    } else {
      assert t != "" ==> Follows(t[|t| - 1], c[0], dirsep);
    }
  }

  /** One pass cleans the directory separators and the start. */
  lemma OnePassCleans(p: string, dirsep: char)
    requires dirsep != PATHSEP
    ensures CleanDirs(Canonical(p, dirsep), dirsep) && CleanStart(Canonical(p, dirsep))
  {
    OnePass(p, |p|, dirsep);
    var t := Canonical(p, dirsep);
    forall i | 0 <= i < |t| && IsDir(t[i], dirsep)
      ensures t[i] == '/' && i + 1 < |t| && Ordinary(t[i + 1], dirsep)
    {
      assert i + 1 < |t| ==> Follows(t[i + 1 - 1], t[i + 1], dirsep);
    }
  }

  predicate NoEmptyPairs(t: string) {
    forall i :: 0 < i < |t| ==> t[i - 1] != PATHSEP || t[i] != PATHSEP
  }

  predicate ReadyElement(t: string, p: string, n: nat)
    requires n <= |p|
  {
    t != "" && t[|t| - 1] == PATHSEP ==> n < |p| && p[n] != PATHSEP
  }

  lemma {:induction false} SecondPass(p: string, n: nat, dirsep: char)
    requires n <= |p| && dirsep != PATHSEP && CleanDirs(p, dirsep) && CleanStart(p)
    ensures NoEmptyPairs(CanonicalTo(p, n, dirsep)) && ReadyElement(CanonicalTo(p, n, dirsep), p, n)
    ensures n > 0 ==> CanonicalTo(p, n, dirsep) != ""
  {
    if n > 0 {
      SecondPass(p, n - 1, dirsep);
      var t, c := CanonicalTo(p, n - 1, dirsep), Copied(p, n - 1, n == 1, dirsep);
      if c == "" {
        assert t + c == t && p[n - 1] == PATHSEP;
      }
    }
  }

  lemma SecondPassCleans(p: string, dirsep: char)
    requires dirsep != PATHSEP && CleanDirs(p, dirsep) && CleanStart(p)
    ensures CleanElements(Canonical(p, dirsep))
  {
    SecondPass(p, |p|, dirsep);
    OnePassCleans(p, dirsep);
    var t := Canonical(p, dirsep);
    forall i | 0 <= i < |t| && t[i] == PATHSEP ensures i + 1 < |t| && t[i + 1] != PATHSEP {
      assert i + 1 < |t| ==> t[i + 1 - 1] != PATHSEP || t[i + 1] != PATHSEP;
    }
  }

  /** A path is left as it is if and only if it is in normal form. */
  lemma FixedExactly(p: string, dirsep: char)
    requires dirsep != PATHSEP
    ensures Canonical(p, dirsep) == p <==> Normal(p, dirsep)
  {
    if Normal(p, dirsep) {
      NormalKept(p, |p|, dirsep);
    }
    if Canonical(p, dirsep) == p {
      assert p[..|p|] == p;
      forall i | 0 <= i < |p| && IsDir(p[i], dirsep)
        ensures p[i] == '/' && i + 1 < |p| && Ordinary(p[i + 1], dirsep)
      {
        EachKept(p, |p|, i, dirsep);
      }
      forall i | 0 <= i < |p| && p[i] == PATHSEP
        ensures i > 0 && i + 1 < |p| && p[i + 1] != PATHSEP
      {
        EachKept(p, |p|, i, dirsep);
      }
    }
  }

  lemma {:induction false} NormalKept(p: string, n: nat, dirsep: char)
    requires n <= |p| && Normal(p, dirsep)
    ensures CanonicalTo(p, n, dirsep) == p[..n]
  {
    if n > 0 {
      NormalKept(p, n - 1, dirsep);
    }
  }

  lemma {:induction false} NeverLonger(p: string, n: nat, dirsep: char)
    requires n <= |p|
    ensures |CanonicalTo(p, n, dirsep)| <= n
  {
    if n > 0 {
      NeverLonger(p, n - 1, dirsep);
    }
  }

  lemma LastKept(p: string, n: nat, dirsep: char)
    requires n < |p| && CanonicalTo(p, n + 1, dirsep) == p[..n + 1]
    ensures CanonicalTo(p, n, dirsep) == p[..n] && Copied(p, n, n == 0, dirsep) == [p[n]]
  {
    hide Copied;
    NeverLonger(p, n, dirsep);
    var t, c := CanonicalTo(p, n, dirsep), Copied(p, n, CanonicalTo(p, n, dirsep) == "", dirsep);
    AtMostOne(p, n, t == "", dirsep);
    assert (t + c)[..n] == t && (t + c)[n..] == c;
  }

  lemma AtMostOne(p: string, n: nat, atStart: bool, dirsep: char)
    requires n < |p|
    ensures |Copied(p, n, atStart, dirsep)| <= 1
  {
  }

  /** Where nothing is lost, every character is copied. */
  lemma {:induction false} EachKept(p: string, n: nat, i: nat, dirsep: char)
    requires i < n <= |p| && CanonicalTo(p, n, dirsep) == p[..n]
    ensures Copied(p, i, i == 0, dirsep) == [p[i]]
  {
    hide Copied, CanonicalTo;
    LastKept(p, n - 1, dirsep);
    if i < n - 1 {
      EachKept(p, n - 1, i, dirsep);
    }
  }

  lemma TwoPassesClean(p: string, dirsep: char)
    requires dirsep != PATHSEP
    ensures var q := Canonical(Canonical(p, dirsep), dirsep); Normal(q, dirsep) && Canonical(q, dirsep) == q
  {
    var t := Canonical(p, dirsep);
    OnePassCleans(p, dirsep);
    OnePassCleans(t, dirsep);
    SecondPassCleans(t, dirsep);
    FixedExactly(Canonical(t, dirsep), dirsep);
  }

  // A pass keeps what a path names.

  /** What a pass copies from `n` on. */
  function CanonicalFrom(p: string, n: nat, atStart: bool, dirsep: char): string
    requires n <= |p|
    decreases |p| - n
  {
    if n == |p| then ""
    else
      var c := Copied(p, n, atStart, dirsep);
      c + CanonicalFrom(p, n + 1, atStart && c == "", dirsep)
  }

  lemma {:induction false} ToThenFrom(p: string, n: nat, dirsep: char)
    requires n <= |p|
    ensures var t := CanonicalTo(p, n, dirsep); Canonical(p, dirsep) == t + CanonicalFrom(p, n, t == "", dirsep)
    decreases |p| - n
  {
    hide Copied;
    if n < |p| {
      ToThenFrom(p, n + 1, dirsep);
    }
  }

  /** A character that is dropped adds nothing to the reading of what follows it. */
  lemma DroppedReads(p: string, n: nat, atStart: bool, dirsep: char)
    requires n < |p| && dirsep != PATHSEP && Copied(p, n, atStart, dirsep) == ""
    ensures atStart ==> Elements(p[n..], dirsep) == Elements(p[n + 1..], dirsep)
    ensures !atStart ==> Read(p[n..], dirsep) == Read(p[n + 1..], dirsep)
  {
    ReadFirst(p[n + 1..], dirsep);
    assert p[n..] == [p[n]] + p[n + 1..];
    ReadNext(p[n], p[n + 1..], dirsep);
  }

  /** A character that is kept stands for the one of the path. */
  lemma KeptReads(p: string, n: nat, atStart: bool, rest: string, dirsep: char)
    requires n < |p| && dirsep != PATHSEP && Copied(p, n, atStart, dirsep) != ""
    requires Read(rest, dirsep) == Read(p[n + 1..], dirsep)
    ensures Read(Copied(p, n, atStart, dirsep) + rest, dirsep) == Read(p[n..], dirsep)
  {
    var c := Copied(p, n, atStart, dirsep);
    assert p[n..] == [p[n]] + p[n + 1..] && c == [c[0]];
    ReadNext(p[n], p[n + 1..], dirsep);
    ReadNext(c[0], rest, dirsep);
  }

  lemma {:induction false} ReadsSame(p: string, n: nat, atStart: bool, dirsep: char)
    requires n <= |p| && dirsep != PATHSEP
    ensures var u := CanonicalFrom(p, n, atStart, dirsep);
            && (atStart ==> Elements(u, dirsep) == Elements(p[n..], dirsep))
            && (!atStart ==> Read(u, dirsep) == Read(p[n..], dirsep))
    decreases |p| - n
  {
    hide Copied, Read;
    if n < |p| {
      var c := Copied(p, n, atStart, dirsep);
      var rest := CanonicalFrom(p, n + 1, atStart && c == "", dirsep);
      ReadsSame(p, n + 1, atStart && c == "", dirsep);
      if c == "" {
        DroppedReads(p, n, atStart, dirsep);
        assert c + rest == rest;
      } else {
        KeptReads(p, n, atStart, rest, dirsep);
      }
    } else {
      assert p[n..] == "";
    }
  }

  /** The result has the same elements with the same names, in the same order; an element
      starts with a directory separator in the one if and only if it does in the other. */
  lemma SameElements(p: string, dirsep: char)
    requires dirsep != PATHSEP
    ensures Elements(Canonical(p, dirsep), dirsep) == Elements(p, dirsep)
  {
    ToThenFrom(p, 0, dirsep);
    ReadsSame(p, 0, true, dirsep);
    var all := CanonicalFrom(p, 0, true, dirsep);
    assert p[0..] == p && CanonicalTo(p, 0, dirsep) + all == all;
  }

  /** Two neighbouring names of the result stand apart by one '/', or by a ':'. */
  lemma NamesApart(p: string, i: nat, j: nat, dirsep: char)
    requires dirsep != PATHSEP
    requires var u := Canonical(p, dirsep);
             && i + 1 < j < |u| && Ordinary(u[i], dirsep) && Ordinary(u[j], dirsep)
             && forall k :: i < k < j ==> !Ordinary(u[k], dirsep)
    ensures var gap := Canonical(p, dirsep)[i + 1..j]; gap == "/" || PATHSEP in gap
  {
    OnePassCleans(p, dirsep);
    var u := Canonical(p, dirsep);
    if u[i + 1] == PATHSEP {
      assert u[i + 1..j][0] == PATHSEP;
    } else {
      assert IsDir(u[i + 1], dirsep) && Ordinary(u[i + 2], dirsep);
      assert u[i + 1..j] == [u[i + 1]];
    }
  }

  /** What two calls return is the path's elements written out, one '/' between names
      and one ':' between elements; so two paths with the same elements end up the same. */
  lemma TwoCallsWrite(p: string, dirsep: char)
    requires dirsep != PATHSEP && CallTwice(p, dirsep).Some?
    ensures CallTwice(p, dirsep).value == Write(Elements(p, dirsep))
  {
    var t := Canonical(p, dirsep);
    SameElements(p, dirsep);
    SameElements(t, dirsep);
    TwoPassesClean(p, dirsep);
    NormalWritten(Canonical(t, dirsep), dirsep);
  }

  predicate Begun(p: string, i: nat, dirsep: char)
    requires i <= |p|
  {
    exists k :: 0 <= k < i && Ordinary(p[k], dirsep)
  }

  /** The element p[i + 1..j] holds directory separators only, and some earlier
      element holds an ordinary character. */
  predicate HollowAt(p: string, i: nat, j: nat, dirsep: char) {
    && i + 1 < j <= |p| && p[i] == PATHSEP && (j < |p| ==> p[j] == PATHSEP)
    && (forall k :: i < k < j ==> IsDir(p[k], dirsep))
    && Begun(p, i, dirsep)
  }

  ghost predicate Hollow(p: string, dirsep: char) {
    exists i: nat, j: nat :: HollowAt(p, i, j, dirsep)
  }

  lemma BegunNext(p: string, n: nat, dirsep: char)
    requires n < |p|
    ensures Begun(p, n + 1, dirsep) <==> Begun(p, n, dirsep) || Ordinary(p[n], dirsep)
  {
  }

  lemma NotBegunAtFirst(p: string, dirsep: char)
    ensures !Begun(p, 0, dirsep)
  {
  }

  lemma CopiedAtStart(p: string, n: nat, dirsep: char)
    requires n < |p| && dirsep != PATHSEP
    ensures forall atStart :: Ordinary(p[n], dirsep) ==> Copied(p, n, atStart, dirsep) != ""
    ensures Copied(p, n, true, dirsep) != "" ==>
              Ordinary(p[n], dirsep) || (n + 1 < |p| && Ordinary(p[n + 1], dirsep))
  {
  }

  lemma {:induction false} CopiesOnceBegun(p: string, n: nat, dirsep: char)
    requires n <= |p| && dirsep != PATHSEP
    ensures Begun(p, n, dirsep) ==> CanonicalTo(p, n, dirsep) != ""
    ensures CanonicalTo(p, n, dirsep) != "" ==> Begun(p, n, dirsep) || (n < |p| && Ordinary(p[n], dirsep))
  {
    hide Begun, Copied;
    if n > 0 {
      CopiesOnceBegun(p, n - 1, dirsep);
      BegunNext(p, n - 1, dirsep);
      CopiedAtStart(p, n - 1, dirsep);
    } else {
      NotBegunAtFirst(p, dirsep);
    }
  }

  /** Where the element that ':' at i opened has stayed empty up to n. */
  predicate OpenSince(p: string, i: nat, n: nat, dirsep: char) {
    && i < n <= |p| && p[i] == PATHSEP && Begun(p, i, dirsep)
    && (forall k :: i < k < n ==> IsDir(p[k], dirsep))
    && (n == i + 1 ==> n < |p| && p[n] != PATHSEP)
  }

  lemma StillOpen(p: string, i: nat, n: nat, dirsep: char)
    requires n < |p| && dirsep != PATHSEP && !Hollow(p, dirsep) && OpenSince(p, i, n, dirsep)
    ensures p[n] != PATHSEP
    ensures IsDir(p[n], dirsep) ==> OpenSince(p, i, n + 1, dirsep)
  {
    if p[n] == PATHSEP {
      assert HollowAt(p, i, n, dirsep);
    }
  }

  lemma Opens(p: string, n: nat, dirsep: char)
    requires n < |p| && dirsep != PATHSEP && p[n] == PATHSEP
    requires Copied(p, n, CanonicalTo(p, n, dirsep) == "", dirsep) != ""
    ensures OpenSince(p, n, n + 1, dirsep)
  {
    CopiesOnceBegun(p, n, dirsep);
  }

  ghost predicate EndsOpen(t: string, p: string, n: nat, dirsep: char) {
    t != "" && t[|t| - 1] == PATHSEP ==> exists i: nat :: OpenSince(p, i, n, dirsep)
  }

  lemma {:induction false} NotHollow(p: string, n: nat, dirsep: char)
    requires n <= |p| && dirsep != PATHSEP && !Hollow(p, dirsep)
    ensures NoEmptyPairs(CanonicalTo(p, n, dirsep)) && EndsOpen(CanonicalTo(p, n, dirsep), p, n, dirsep)
  {
    hide Hollow, OpenSince, Begun, NoEmptyPairs;
    if n > 0 {
      NotHollow(p, n - 1, dirsep);
      var t := CanonicalTo(p, n - 1, dirsep);
      var c := Copied(p, n - 1, t == "", dirsep);
      if t != "" && t[|t| - 1] == PATHSEP {
        var i: nat :| OpenSince(p, i, n - 1, dirsep);
        StillOpen(p, i, n - 1, dirsep);
      }
      if c == "" {
        assert t + c == t;
      } else {
        AppendElement(t, c[0]);
        if p[n - 1] == PATHSEP {
          Opens(p, n - 1, dirsep);
        }
      }
    } else {
      NoPairsAtFirst();
    }
  }

  lemma NoPairsAtFirst()
    ensures NoEmptyPairs("")
  {
  }

  lemma AppendElement(t: string, c: char)
    requires NoEmptyPairs(t) && (t == "" || t[|t| - 1] != PATHSEP || c != PATHSEP)
    ensures NoEmptyPairs(t + [c])
  {
  }

  lemma {:induction false} DirsDropped(p: string, i: nat, j: nat, n: nat, dirsep: char)
    requires HollowAt(p, i, j, dirsep) && i < n <= j && dirsep != PATHSEP
    ensures CanonicalTo(p, n, dirsep) == CanonicalTo(p, i, dirsep) + [PATHSEP] && CanonicalTo(p, i, dirsep) != ""
  {
    if n > i + 1 {
      DirsDropped(p, i, j, n - 1, dirsep);
    } else {
      CopiesOnceBegun(p, i, dirsep);
      assert IsDir(p[i + 1], dirsep);
    }
  }

  lemma {:induction false} StaysHollow(p: string, i: nat, j: nat, n: nat, dirsep: char)
    requires HollowAt(p, i, j, dirsep) && j <= n <= |p| && dirsep != PATHSEP
    ensures var t, u := CanonicalTo(p, i, dirsep) + [PATHSEP], CanonicalTo(p, n, dirsep);
            (u == t && (n < |p| ==> p[n] == PATHSEP)) || t + [PATHSEP] <= u
  {
    if n == j {
      DirsDropped(p, i, j, j, dirsep);
    } else {
      StaysHollow(p, i, j, n - 1, dirsep);
    }
  }

  lemma SecondPassIdle(p: string, dirsep: char)
    requires dirsep != PATHSEP
    ensures Canonical(Canonical(p, dirsep), dirsep) == Canonical(p, dirsep) <==> !Hollow(p, dirsep)
  {
    var u := Canonical(p, dirsep);
    OnePassCleans(p, dirsep);
    FixedExactly(u, dirsep);
    if Hollow(p, dirsep) {
      var i: nat, j: nat :| HollowAt(p, i, j, dirsep);
      StaysHollow(p, i, j, |p|, dirsep);
      var k := |CanonicalTo(p, i, dirsep)|;
      assert u[k] == PATHSEP && (k + 1 < |u| ==> u[k + 1] == PATHSEP);
    } else {
      NotHollow(p, |p|, dirsep);
      if u != "" && u[|u| - 1] == PATHSEP {
        var i: nat :| OpenSince(p, i, |p|, dirsep);
        assert HollowAt(p, i, |p|, dirsep);
      }
      forall k | 0 <= k < |u| && u[k] == PATHSEP ensures k + 1 < |u| && u[k + 1] != PATHSEP {
        assert k + 1 < |u| ==> u[k + 1 - 1] != PATHSEP || u[k + 1] != PATHSEP;
      }
    }
  }

  /** Some character belongs to a name. */
  predicate HasName(p: string, dirsep: char) {
    Begun(p, |p|, dirsep)
  }

  /** A pass leaves nothing if and only if the path names nothing. */
  lemma EmptiedExactly(p: string, dirsep: char)
    requires dirsep != PATHSEP
    ensures Canonical(p, dirsep) == "" <==> !HasName(p, dirsep)
  {
    CopiesOnceBegun(p, |p|, dirsep);
  }

  /** The second call fails its assertion if and only if the path names nothing. If it
      does not, two calls reach the normal form, and any further one changes nothing. */
  lemma TwoCallsSuffice(p: string, dirsep: char)
    requires dirsep != PATHSEP
    ensures CallTwice(p, dirsep).Some? <==> HasName(p, dirsep)
    ensures CallTwice(p, dirsep).Some? ==>
              var q := CallTwice(p, dirsep).value;
              q != "" && Normal(q, dirsep) && Call(q, dirsep) == Some(q)
  {
    var t := Canonical(p, dirsep);
    EmptiedExactly(p, dirsep);
    EmptiedExactly(t, dirsep);
    TwoPassesClean(p, dirsep);
    if HasName(p, dirsep) {
      NameKept(p, dirsep);
    }
  }

  lemma {:induction false} KeepsName(p: string, n: nat, dirsep: char)
    requires n <= |p| && Begun(p, n, dirsep)
    ensures HasName(CanonicalTo(p, n, dirsep), dirsep)
  {
    hide Copied;
    BegunNext(p, n - 1, dirsep);
    var t := CanonicalTo(p, n - 1, dirsep);
    var c := Copied(p, n - 1, t == "", dirsep);
    if Begun(p, n - 1, dirsep) {
      KeepsName(p, n - 1, dirsep);
      var k :| 0 <= k < |t| && Ordinary(t[k], dirsep);
      assert (t + c)[k] == t[k];
    } else {
      OrdinaryCopied(p, n - 1, t == "", dirsep);
      assert (t + c)[|t|] == p[n - 1];
    }
  }

  lemma OrdinaryCopied(p: string, n: nat, atStart: bool, dirsep: char)
    requires n < |p| && Ordinary(p[n], dirsep)
    ensures Copied(p, n, atStart, dirsep) == [p[n]]
  {
  }

  lemma NameKept(p: string, dirsep: char)
    requires dirsep != PATHSEP && HasName(p, dirsep)
    ensures HasName(Canonical(p, dirsep), dirsep)
  {
    KeepsName(p, |p|, dirsep);
  }

  /** One call settles a path if and only if the path names something and leaves no
      element hollow. */
  lemma OneCallExactly(p: string, dirsep: char)
    requires dirsep != PATHSEP && p != ""
    ensures CallTwice(p, dirsep) == Call(p, dirsep) <==> HasName(p, dirsep) && !Hollow(p, dirsep)
  {
    EmptiedExactly(p, dirsep);
    SecondPassIdle(p, dirsep);
  }

  /** Paths that one call does not settle: the first needs a second call, the others
      fail its assertion, at once or on the second call. */
  lemma CallExamples()
    ensures Call("a:/", '/') == Some("a:") && CallTwice("a:/", '/') == Some("a")
    ensures Call("/", '/') == Some("") && CallTwice("/", '/') == None
    ensures Call("", '/') == None
  {
    assert CanonicalTo("a:/", 1, '/') == "a" && CanonicalTo("a:/", 2, '/') == "a:";
    assert CanonicalTo("a:", 1, '/') == "a";
    assert Canonical("a:/", '/') == "a:" && Canonical("a:", '/') == "a" && Canonical("/", '/') == "";
  }

  /** The copy loop of canonicalize_path, or the failure of its assertion. */
  method CanonicalizePath(path: string, dirsep: char) returns (canonical: Option<string>)
    requires dirsep != PATHSEP
    ensures canonical == Call(path, dirsep)
    ensures canonical.Some? ==> CleanDirs(canonical.value, dirsep) && CleanStart(canonical.value)
    ensures canonical.Some? ==> Elements(canonical.value, dirsep) == Elements(path, dirsep)
  {
    if path == "" {
      return None;
    }
    var buffer := new char[|path| + 1](_ => EOS);
    var dest := 0;
    for src := 0 to |path|
      invariant dest <= src && buffer[..dest] == CanonicalTo(path, src, dirsep)
    {
      if path[src] == PATHSEP && (dest == 0 || src + 1 == |path| || path[src + 1] == PATHSEP) {
        continue;
      }
      if path[src] != '/' && path[src] != dirsep {
        buffer[dest] := path[src];
        dest := dest + 1;
      } else if src + 1 < |path| && path[src + 1] != PATHSEP && path[src + 1] != dirsep && path[src + 1] != '/' {
        buffer[dest] := '/';
        dest := dest + 1;
      }
    }
    OnePassCleans(path, dirsep);
    SameElements(path, dirsep);
    return Some(buffer[..dest]);
  }

  lemma {:induction false} NoEos(p: string, n: nat, dirsep: char)
    requires n <= |p| && EOS !in p
    ensures EOS !in CanonicalTo(p, n, dirsep)
  {
    if n > 0 {
      NoEos(p, n - 1, dirsep);
      assert p[n - 1] in p;
    }
  }
}
