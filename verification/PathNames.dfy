/** What a search path names: elements between path separators, each a list of names
    that is rooted or not. */
module PathNames {
  const PATHSEP: char := ':'

  predicate IsDir(c: char, dirsep: char) {
    c == '/' || c == dirsep
  }

  predicate Ordinary(c: char, dirsep: char) {
    c != PATHSEP && !IsDir(c, dirsep)
  }

  /** An element starts with a directory separator if it is rooted. */
  datatype Element = Element(rooted: bool, names: seq<string>)

  /** A path read from its end: the ordinary characters that it starts with, the other
      names of its first element, and the elements behind that one which name something. */
  datatype Reading = Reading(word: string, names: seq<string>, others: seq<Element>)

  function Pushed(word: string, names: seq<string>): seq<string> {
    if word == "" then names else [word] + names
  }

  /** The elements of a reading, once nothing comes before it. */
  function Close(r: Reading): seq<Element> {
    if r.word == "" && r.names == [] then r.others
    else [Element(r.word == "", Pushed(r.word, r.names))] + r.others
  }

  function Before(c: char, r: Reading, dirsep: char): Reading {
    if c == PATHSEP then Reading("", [], Close(r))
    else if IsDir(c, dirsep) then Reading("", Pushed(r.word, r.names), r.others)
    else r.(word := [c] + r.word)
  }

  function Read(p: string, dirsep: char): Reading {
    if p == "" then Reading("", [], []) else Before(p[0], Read(p[1..], dirsep), dirsep)
  }

  /** The elements of a path that name something, in order. */
  function Elements(p: string, dirsep: char): seq<Element> {
    Close(Read(p, dirsep))
  }

  lemma ReadNext(c: char, p: string, dirsep: char)
    ensures Read([c] + p, dirsep) == Before(c, Read(p, dirsep), dirsep)
  {
    assert ([c] + p)[1..] == p;
  }

  // The one way to write elements without anything superfluous.

  /** '/' before each name. */
  function Slashed(names: seq<string>): string {
    if names == [] then "" else "/" + names[0] + Slashed(names[1..])
  }

  function WriteElement(e: Element): string {
    if e.rooted || e.names == [] then Slashed(e.names) else e.names[0] + Slashed(e.names[1..])
  }

  function WriteOthers(es: seq<Element>): string {
    if es == [] then "" else [PATHSEP] + WriteElement(es[0]) + WriteOthers(es[1..])
  }

  /** One '/' between names, one ':' between elements. */
  function Write(es: seq<Element>): string {
    if es == [] then "" else WriteElement(es[0]) + WriteOthers(es[1..])
  }

  /** The rest of a path, as its reading has it. */
  function Rest(r: Reading): string {
    r.word + Slashed(r.names) + WriteOthers(r.others)
  }

  /** Directory separators are all '/', and each is followed by an ordinary character. */
  predicate CleanDirs(p: string, dirsep: char) {
    forall i :: 0 <= i < |p| && IsDir(p[i], dirsep) ==> p[i] == '/' && i + 1 < |p| && Ordinary(p[i + 1], dirsep)
  }

  /** Every ':' has something other than ':' behind it. */
  predicate FilledElements(p: string) {
    forall i :: 0 <= i < |p| && p[i] == PATHSEP ==> i + 1 < |p| && p[i + 1] != PATHSEP
  }

  lemma ReadFirst(p: string, dirsep: char)
    ensures p == "" || !Ordinary(p[0], dirsep) ==> Read(p, dirsep).word == ""
    ensures p != "" && Ordinary(p[0], dirsep) ==> Read(p, dirsep).word != ""
    ensures p == "" || p[0] == PATHSEP ==> Read(p, dirsep).names == []
  {
  }

  lemma SlashedNext(word: string, names: seq<string>)
    requires word != ""
    ensures Slashed(Pushed(word, names)) == "/" + word + Slashed(names)
  {
    assert ([word] + names)[1..] == names;
  }

  lemma ElementWritten(word: string, names: seq<string>)
    requires word != "" || names != []
    ensures WriteElement(Element(word == "", Pushed(word, names))) == word + Slashed(names)
  {
    if word != "" {
      assert ([word] + names)[1..] == names;
    } else {
      assert word + Slashed(names) == Slashed(names);
    }
  }

  lemma WriteClosed(r: Reading)
    requires r.word != "" || r.names != []
    ensures WriteOthers(Close(r)) == [PATHSEP] + Rest(r)
    ensures Write(Close(r)) == Rest(r)
  {
    hide WriteElement, Slashed, Pushed;
    ElementWritten(r.word, r.names);
    assert Close(r)[1..] == r.others;
  }

  lemma RestNext(c: char, r: Reading, dirsep: char)
    requires dirsep != PATHSEP && (IsDir(c, dirsep) ==> c == '/' && r.word != "")
    requires c == PATHSEP ==> r.word != "" || r.names != []
    ensures Rest(Before(c, r, dirsep)) == [c] + Rest(r)
  {
    hide WriteOthers, Close, Slashed, Pushed;
    NothingWritten();
    if c == PATHSEP {
      WriteClosed(r);
    } else if IsDir(c, dirsep) {
      SlashedNext(r.word, r.names);
    }
  }

  lemma NothingWritten()
    ensures Slashed([]) == "" && WriteOthers([]) == "" && Rest(Reading("", [], [])) == ""
  {
  }

  /** A clean path is what its reading has it. */
  lemma {:induction false} CleanRest(p: string, dirsep: char)
    requires dirsep != PATHSEP && CleanDirs(p, dirsep) && FilledElements(p)
    ensures Rest(Read(p, dirsep)) == p
    ensures p != "" && p[0] != PATHSEP ==> Read(p, dirsep).word != "" || Read(p, dirsep).names != []
  {
    hide Rest;
    if p != "" {
      var s, r := p[1..], Read(p[1..], dirsep);
      assert forall i :: 0 <= i < |s| ==> s[i] == p[i + 1];
      CleanRest(s, dirsep);
      ReadFirst(s, dirsep);
      RestNext(p[0], r, dirsep);
    } else {
      NothingWritten();
    }
  }

  /** A path in normal form is its elements written out, so no two such paths name the
      same. */
  lemma NormalWritten(p: string, dirsep: char)
    requires dirsep != PATHSEP && CleanDirs(p, dirsep) && FilledElements(p) && (p == "" || p[0] != PATHSEP)
    ensures Write(Elements(p, dirsep)) == p
  {
    CleanRest(p, dirsep);
    if p != "" {
      WriteClosed(Read(p, dirsep));
    }
  }

  predicate Proper(e: Element, dirsep: char) {
    e.names != [] && forall k :: 0 <= k < |e.names| ==> IsName(e.names[k], dirsep)
  }

  predicate IsName(s: string, dirsep: char) {
    s != "" && forall i :: 0 <= i < |s| ==> Ordinary(s[i], dirsep)
  }

  lemma {:induction false} ReadName(w: string, s: string, dirsep: char)
    requires forall i :: 0 <= i < |w| ==> Ordinary(w[i], dirsep)
    ensures Read(w + s, dirsep) == Read(s, dirsep).(word := w + Read(s, dirsep).word)
  {
    if w == "" {
      assert w + s == s && w + Read(s, dirsep).word == Read(s, dirsep).word;
    } else {
      ReadName(w[1..], s, dirsep);
      assert (w + s)[1..] == w[1..] + s;
      assert [w[0]] + (w[1..] + Read(s, dirsep).word) == w + Read(s, dirsep).word;
    }
  }

  lemma {:induction false} ReadSlashed(names: seq<string>, s: string, dirsep: char)
    requires dirsep != PATHSEP && Read(s, dirsep).word == ""
    requires forall k :: 0 <= k < |names| ==> IsName(names[k], dirsep)
    ensures Read(Slashed(names) + s, dirsep) == Reading("", names + Read(s, dirsep).names, Read(s, dirsep).others)
  {
    if names == [] {
      assert Slashed(names) + s == s;
    } else {
      var t := Slashed(names[1..]) + s;
      ReadSlashed(names[1..], s, dirsep);
      ReadName(names[0], t, dirsep);
      ReadNext('/', names[0] + t, dirsep);
      assert Slashed(names) + s == ['/'] + (names[0] + t);
      assert names[0] + "" == names[0];
      assert [names[0]] + (names[1..] + Read(s, dirsep).names) == names + Read(s, dirsep).names;
    }
  }

  /** An element written out before a ':' or the end is read as it was. */
  lemma ReadElement(e: Element, s: string, dirsep: char)
    requires dirsep != PATHSEP && Proper(e, dirsep)
    requires Read(s, dirsep).word == "" && Read(s, dirsep).names == []
    ensures Close(Read(WriteElement(e) + s, dirsep)) == [e] + Read(s, dirsep).others
  {
    var head, tail := e.names[0], e.names[1..];
    if e.rooted {
      ReadSlashed(e.names, s, dirsep);
      assert e.names + [] == e.names;
    } else {
      ReadSlashed(tail, s, dirsep);
      ReadName(head, Slashed(tail) + s, dirsep);
      assert WriteElement(e) + s == head + (Slashed(tail) + s);
      assert head + "" == head && tail + [] == tail && [head] + tail == e.names;
    }
  }

  lemma {:induction false} ReadOthers(es: seq<Element>, dirsep: char)
    requires dirsep != PATHSEP && forall k :: 0 <= k < |es| ==> Proper(es[k], dirsep)
    ensures Read(WriteOthers(es), dirsep) == Reading("", [], es)
  {
    hide Proper, WriteElement, Close;
    if es != [] {
      var t := WriteElement(es[0]) + WriteOthers(es[1..]);
      ReadOthers(es[1..], dirsep);
      ReadElement(es[0], WriteOthers(es[1..]), dirsep);
      ReadNext(PATHSEP, t, dirsep);
      assert WriteOthers(es) == [PATHSEP] + t;
    }
  }

  /** Elements that were written out are read back. */
  lemma WrittenRead(es: seq<Element>, dirsep: char)
    requires dirsep != PATHSEP && forall k :: 0 <= k < |es| ==> Proper(es[k], dirsep)
    ensures Elements(Write(es), dirsep) == es
  {
    if es != [] {
      ReadOthers(es[1..], dirsep);
      ReadElement(es[0], WriteOthers(es[1..]), dirsep);
    }
  }
}
