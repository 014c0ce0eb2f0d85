/** Object paths (path.cpp): validity, decomposition and appending of elements. */
module Paths {

  predicate IsPathChar(c: char) {
    'A' <= c <= 'Z' || 'a' <= c <= 'z' || '0' <= c <= '9' || c == '_' || c == '/'
  }

  predicate OnlyPathChars(s: string) { forall i :: 0 <= i < |s| ==> IsPathChar(s[i]) }

  /** `find( "//" )` finds nothing. */
  predicate NoDouble(s: string) { forall i :: 0 < i < |s| && s[i] == '/' ==> s[i - 1] != '/' }

  /** `Path::is_valid`. */
  predicate Valid(s: string) {
    && s != "" && s[0] == '/' && OnlyPathChars(s) && NoDouble(s)
    && (|s| > 1 ==> s[|s| - 1] != '/')
  }

  /** The rules of the D-Bus specification for object paths: a slash first, letters, digits and
      underscores, no empty element, and no slash at the end except for the root. */
  lemma ValidIff(s: string)
    ensures Valid(s) <==>
              && |s| > 0 && s[0] == '/'
              && (forall i :: 0 <= i < |s| ==>
                    s[i] == '/' || s[i] == '_' || 'A' <= s[i] <= 'Z' || 'a' <= s[i] <= 'z' || '0' <= s[i] <= '9')
              && (forall i :: 0 < i < |s| && s[i] == '/' ==> s[i - 1] != '/')
              && (s[|s| - 1] == '/' ==> s == "/")
  {
  }

  // ----- decomposition -----

  /** The pieces with a start put before the first. */
  function Extended(start: string, pieces: seq<string>): (r: seq<string>)
    requires pieces != []
    ensures r != []
  {
    [start + pieces[0]] + pieces[1..]
  }

  /** The text cut at every slash. */
  function Cut(s: string): (r: seq<string>)
    ensures r != []
  {
    if s == "" then [""]
    else if s[0] == '/' then [""] + Cut(s[1..])
    else Extended([s[0]], Cut(s[1..]))
  }

  /** `decomposed`: the root is one empty piece; an invalid path has none. */
  function Decomposed(s: string): seq<string> {
    if !Valid(s) then [] else if |s| == 1 then [""] else Cut(s[1..])
  }

  method DecomposedLoop(s: string) returns (pieces: seq<string>)
    ensures pieces == Decomposed(s)
  {
    hide Cut, Extended;
    if !Valid(s) { return []; }
    pieces := [];
    var current := "";
    if |s| == 1 { return [current]; }
    ExtendedByNothing(Cut(s[1..]));
    for i := 1 to |s|
      invariant pieces + Extended(current, Cut(s[i..])) == Cut(s[1..])
    {
      var c := s[i];
      assert s[i..][0] == c && s[i..][1..] == s[i + 1..];
      CutByHead(s[i..]);
      if c == '/' {
        ExtendedAtSlash(current, Cut(s[i + 1..]));
        Regroup(pieces, [current], Cut(s[i + 1..]));
        pieces := pieces + [current];
        current := "";
      } else {
        ExtendedTwice(current, [c], Cut(s[i + 1..]));
        current := current + [c];
      }
    }
    NothingToCut(current, s[|s|..]);
    pieces := pieces + [current];
  }

  lemma CutByHead(s: string)
    requires s != ""
    ensures Cut(s) == if s[0] == '/' then [""] + Cut(s[1..]) else Extended([s[0]], Cut(s[1..]))
  {
  }

  lemma NothingToCut(current: string, s: string)
    requires s == ""
    ensures Extended(current, Cut(s)) == [current]
  {
    assert current + "" == current;
  }

  lemma ExtendedByNothing(pieces: seq<string>)
    requires pieces != []
    ensures Extended("", pieces) == pieces
  {
    assert "" + pieces[0] == pieces[0];
  }

  lemma ExtendedAtSlash(start: string, rest: seq<string>)
    requires rest != []
    ensures Extended(start, [""] + rest) == [start] + Extended("", rest)
    ensures [start] + Extended("", rest) == [start] + rest
  {
    ExtendedByNothing(rest);
    assert start + "" == start;
    assert ([""] + rest)[1..] == rest;
  }

  lemma ExtendedTwice(a: string, b: string, rest: seq<string>)
    requires rest != []
    ensures Extended(a, Extended(b, rest)) == Extended(a + b, rest)
  {
    assert a + (b + rest[0]) == a + b + rest[0];
  }

  lemma ExtendedAppend(a: string, x: seq<string>, y: seq<string>)
    requires x != []
    ensures Extended(a, x + y) == Extended(a, x) + y
  {
    assert (x + y)[1..] == x[1..] + y;
  }

  lemma Regroup(a: seq<string>, b: seq<string>, c: seq<string>)
    ensures a + (b + c) == a + b + c
  {
  }

  /** Every piece with a slash before it. */
  function Joined(pieces: seq<string>): string {
    if pieces == [] then "" else ['/'] + (pieces[0] + Joined(pieces[1..]))
  }

  lemma JoinedExtended(a: string, pieces: seq<string>, text: string)
    requires pieces != [] && Joined(pieces) == ['/'] + text
    ensures Joined(Extended(a, pieces)) == ['/'] + (a + text)
  {
    var tail := Joined(pieces[1..]);
    assert (['/'] + (pieces[0] + tail))[1..] == pieces[0] + tail && (['/'] + text)[1..] == text;
    assert Extended(a, pieces)[1..] == pieces[1..];
    assert a + pieces[0] + tail == a + (pieces[0] + tail);
  }

  lemma {:induction false} JoinedCut(s: string)
    ensures Joined(Cut(s)) == ['/'] + s
  {
    hide Extended, Joined;
    if s == "" {
      JoinedNothing();
    } else {
      JoinedCut(s[1..]);
      assert s == [s[0]] + s[1..];
      if s[0] == '/' {
        JoinedSlash(Cut(s[1..]));
      } else {
        JoinedExtended([s[0]], Cut(s[1..]), s[1..]);
      }
    }
  }

  lemma JoinedNothing()
    ensures Joined([""]) == ['/'] + ""
  {
    assert [""][1..] == [] && Joined([]) == "";
  }

  lemma JoinedSlash(rest: seq<string>)
    ensures Joined([""] + rest) == ['/'] + Joined(rest)
  {
    assert ([""] + rest)[1..] == rest;
    assert "" + Joined(rest) == Joined(rest);
  }

  /** Joining the pieces of a valid path gives the path back. */
  lemma JoinUndoesDecompose(s: string)
    requires Valid(s)
    ensures Joined(Decomposed(s)) == s
  {
    assert s == ['/'] + s[1..];
    JoinedCut(s[1..]);
    if |s| == 1 { assert s[1..] == ""; }
  }

  /** No piece holds a slash; and when the text has no two slashes together and none at its ends,
      no piece is empty. */
  lemma {:induction false} PiecesAreNames(s: string)
    ensures forall i :: 0 <= i < |Cut(s)| ==> '/' !in Cut(s)[i]
    ensures s != "" && NoDouble(s) && s[|s| - 1] != '/' ==> forall i :: 1 <= i < |Cut(s)| ==> Cut(s)[i] != ""
    ensures s != "" && s[0] != '/' ==> Cut(s)[0] != ""
  {
    if s != "" {
      var t := s[1..];
      PiecesAreNames(t);
      assert forall i :: 0 < i < |t| ==> t[i] == s[i + 1] && t[i - 1] == s[i];
      if t != "" { assert t[|t| - 1] == s[|s| - 1] && t[0] == s[1]; }
      assert NoDouble(s) ==> NoDouble(t);
      var rest := Cut(t);
      if s[0] == '/' {
        assert forall i :: 1 <= i < |Cut(s)| ==> Cut(s)[i] == rest[i - 1];
      } else {
        assert forall i :: 1 <= i < |Cut(s)| ==> Cut(s)[i] == rest[i];
      }
    }
  }

  /** The pieces of a valid path other than the root are names: not empty, without slashes. */
  lemma DecomposedIntoNames(s: string)
    requires Valid(s) && s != "/"
    ensures forall p :: p in Decomposed(s) ==> p != "" && '/' !in p
  {
    var t := s[1..];
    assert forall i :: 0 < i < |t| ==> t[i] == s[i + 1] && t[i - 1] == s[i];
    assert t[0] == s[1] && t[|t| - 1] == s[|s| - 1];
    PiecesAreNames(t);
  }

  // ----- appending -----

  /** `append_element`, on the path as it is; `None` leaves it so. */
  function Append(path: string, element: string): (bool, string) {
    if element == "" || !OnlyPathChars(element) || !NoDouble(element) || element == "/" then (false, path)
    else
      var slashed := if element[0] != '/' then path + "/" else path;
      if element[|element| - 1] == '/' then (true, slashed + element[..|element| - 1]) else (true, slashed + element)
  }

  class Path {
    var text: string

    constructor (s: string)
      ensures text == s
    {
      text := s;
    }

    /** The check comes first, so a failed append changes nothing; the path itself is not checked. */
    method AppendElement(element: string) returns (ok: bool)
      modifies this
      ensures (ok, text) == Append(old(text), element)
    {
      if element == "" { return false; }
      if !OnlyPathChars(element) { return false; }
      if !NoDouble(element) { return false; }
      if |element| == 1 && element[0] == '/' { return false; }
      if element[0] != '/' { text := text + "/"; }
      if element[|element| - 1] == '/' { text := text + element[..|element| - 1]; }
      else { text := text + element; }
      ok := true;
    }
  }

  /** An element without the slashes at its ends. */
  function Inner(element: string): string
    requires element != ""
  {
    var e := if element[|element| - 1] == '/' then element[..|element| - 1] else element;
    if e != "" && e[0] == '/' then e[1..] else e
  }

  predicate Appendable(element: string) {
    element != "" && OnlyPathChars(element) && NoDouble(element) && element != "/"
  }

  /** An append succeeds exactly on the appendable elements, and then adds a slash and the inner
      part of the element. */
  lemma AppendAdds(path: string, element: string)
    ensures Append(path, element).0 <==> Appendable(element)
    ensures !Appendable(element) ==> Append(path, element).1 == path
    ensures Appendable(element) ==> Append(path, element).1 == path + (['/'] + Inner(element))
  {
    if Appendable(element) {
      var inner, last := Inner(element), |element| - 1;
      if element[0] != '/' {
        assert path + "/" + inner == path + (['/'] + inner);
      } else if element[last] == '/' {
        assert element[..last] == ['/'] + inner;
      } else {
        assert element == ['/'] + inner;
      }
    }
  }

  /** The inner part of an appendable element has no slash at its ends. */
  predicate Bare(inner: string) {
    inner != "" && OnlyPathChars(inner) && NoDouble(inner) && inner[0] != '/' && inner[|inner| - 1] != '/'
  }

  lemma InnerIsBare(element: string)
    requires Appendable(element)
    ensures Bare(Inner(element))
  {
    var inner := Inner(element);
    var off := if element[0] == '/' then 1 else 0;
    assert |element| == 2 ==> element[0] != '/' || element[1] != '/';
    assert forall i :: 0 <= i < |inner| ==> inner[i] == element[i + off];
    assert |inner| + off < |element| ==> element[|inner| + off] == '/';
  }

  lemma JoinIsValid(path: string, inner: string)
    requires Valid(path) && path != "/" && Bare(inner)
    ensures Valid(path + (['/'] + inner))
  {
    var s, n := path + (['/'] + inner), |path|;
    assert forall i :: 0 <= i < |s| ==> s[i] == if i < n then path[i] else if i == n then '/' else inner[i - n - 1];
    forall i | 0 < i < |s| && s[i] == '/' ensures s[i - 1] != '/' {
      if i < n { assert path[i] == '/'; } else if i > n + 1 { assert inner[i - n - 1] == '/'; }
    }
  }

  /** Appending keeps validity if and only if it fails or the path is not the root: an element
      appended to the root gets a second slash. */
  lemma AppendKeepsValidIff(path: string, element: string)
    requires Valid(path)
    ensures Valid(Append(path, element).1) <==> path != "/" || !Appendable(element)
  {
    AppendAdds(path, element);
    if Appendable(element) {
      InnerIsBare(element);
      var s := path + (['/'] + Inner(element));
      if path != "/" {
        JoinIsValid(path, Inner(element));
      } else {
        assert s[0] == '/' && s[1] == '/';
      }
    }
  }

  lemma {:induction false} CutSplit(a: string, b: string)
    ensures Cut(a + (['/'] + b)) == Cut(a) + Cut(b)
  {
    hide Cut, Extended;
    var whole := a + (['/'] + b);
    CutByHead(whole);
    if a == "" {
      assert whole[1..] == b;
      CutNothing();
    } else {
      CutSplit(a[1..], b);
      CutByHead(a);
      assert whole[1..] == a[1..] + (['/'] + b) && whole[0] == a[0];
      if a[0] == '/' { Regroup([""], Cut(a[1..]), Cut(b)); }
      else { ExtendedAppend([a[0]], Cut(a[1..]), Cut(b)); }
    }
  }

  lemma CutNothing()
    ensures Cut("") == [""]
  {
  }

  /** Path algebra: a successful append to a valid path other than the root keeps validity, and its
      decomposition is the old one followed by the pieces of the element; a failed one changes
      nothing. */
  lemma AppendAlgebra(path: string, element: string)
    requires Valid(path) && path != "/"
    ensures var (ok, now) := Append(path, element);
            if ok then Valid(now) && Decomposed(now) == Decomposed(path) + Cut(Inner(element)) else now == path
  {
    AppendAdds(path, element);
    AppendKeepsValidIff(path, element);
    if Appendable(element) {
      var inner := Inner(element);
      var now := path + (['/'] + inner);
      CutSplit(path[1..], inner);
      assert now[1..] == path[1..] + (['/'] + inner);
    }
  }
}
