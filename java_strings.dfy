/** String.split with a one-character separator and limit 0, which drops
    trailing empty pieces, as the configuration classes call it, and its
    building blocks: the first occurrence of a character (also used by the
    reference reader) and splitting at every occurrence of a separator. */
module JavaStrings {

  /** Index of the first occurrence of `c` in `s` (String.indexOf). */
  function IndexOf(s: string, c: char): (i: nat)
    requires c in s
    ensures i < |s| && s[i] == c
    ensures c !in s[..i]
  {
    if s[0] == c then 0
    else
      var j := IndexOf(s[1..], c);
      assert s[..j + 1] == [s[0]] + s[1..][..j];
      j + 1
  }

  /** The first occurrence of `c` in `a + [c] + b` is just after `a` when `a` has none. */
  lemma IndexOfAfter(a: string, c: char, b: string)
    requires c !in a
    ensures c in a + [c] + b
    ensures IndexOf(a + [c] + b, c) == |a|
  {
    var s := a + [c] + b;
    assert s[|a|] == c;
    assert s[..|a|] == a;
  }

  /** The pieces of `s` between the occurrences of `c`, empty pieces included. */
  function SplitAll(s: string, c: char): (r: seq<string>)
    ensures |r| >= 1
    decreases |s|
  {
    if c in s then
      var i := IndexOf(s, c);
      [s[..i]] + SplitAll(s[i + 1..], c)
    else [s]
  }

  /** No piece holds the separator. */
  lemma {:induction false} SplitAllPieces(s: string, c: char)
    ensures forall i :: 0 <= i < |SplitAll(s, c)| ==> c !in SplitAll(s, c)[i]
    decreases |s|
  {
    if c in s {
      var k := IndexOf(s, c);
      SplitAllPieces(s[k + 1..], c);
      assert SplitAll(s, c) == [s[..k]] + SplitAll(s[k + 1..], c);
    }
  }

  /** The pieces glued back together with `c` between neighbours. */
  function Join(pieces: seq<string>, c: char): string
    requires |pieces| >= 1
  {
    if |pieces| == 1 then pieces[0] else pieces[0] + [c] + Join(pieces[1..], c)
  }

  /** Splitting at a separator in front of which there is none splits off exactly that front piece. */
  lemma SplitAllCons(a: string, c: char, b: string)
    requires c !in a
    ensures SplitAll(a + [c] + b, c) == [a] + SplitAll(b, c)
  {
    var s := a + [c] + b;
    IndexOfAfter(a, c, b);
    assert s[..|a|] == a;
    assert s[|a| + 1..] == b;
  }

  /** Joining a front piece onto further pieces puts one separator between them. */
  lemma JoinCons(p: string, ps: seq<string>, c: char)
    requires |ps| >= 1
    ensures Join([p] + ps, c) == p + [c] + Join(ps, c)
  {
    assert ([p] + ps)[1..] == ps;
  }

  /** A text is its part before position `i`, the character there, and the part after. */
  lemma SliceAround(s: string, i: nat)
    requires i < |s|
    ensures s[..i] + [s[i]] + s[i + 1..] == s
  {
    assert s[..i] + [s[i]] == s[..i + 1];
  }

  /** Joining the pieces recovers the text: SplitAll loses nothing. */
  lemma {:induction false} JoinSplitAll(s: string, c: char)
    ensures Join(SplitAll(s, c), c) == s
    decreases |s|
  {
    if c in s {
      var i := IndexOf(s, c);
      var rest := s[i + 1..];
      JoinSplitAll(rest, c);
      JoinCons(s[..i], SplitAll(rest, c), c);
      SliceAround(s, i);
    }
  }

  /** Splitting joined pieces that hold no separator gives the pieces back. */
  lemma {:induction false} SplitAllJoin(pieces: seq<string>, c: char)
    requires |pieces| >= 1
    requires forall i :: 0 <= i < |pieces| ==> c !in pieces[i]
    ensures SplitAll(Join(pieces, c), c) == pieces
    decreases |pieces|
  {
    if |pieces| > 1 {
      var tail := pieces[1..];
      assert forall i :: 0 <= i < |tail| ==> tail[i] == pieces[i + 1];
      SplitAllJoin(tail, c);
      assert Join(pieces, c) == pieces[0] + [c] + Join(tail, c);
      assert c !in pieces[0];
      SplitAllCons(pieces[0], c, Join(tail, c));
      assert [pieces[0]] + tail == pieces;
    } else {
      assert c !in pieces[0];
    }
  }

  /** The last piece is empty exactly when the text is empty or ends with the separator. */
  lemma {:induction false} SplitAllLastEmpty(s: string, c: char)
    ensures SplitAll(s, c)[|SplitAll(s, c)| - 1] == "" <==> (s == "" || s[|s| - 1] == c)
    decreases |s|
  {
    if c in s {
      var k := IndexOf(s, c);
      var rest := s[k + 1..];
      var rr := SplitAll(rest, c);
      SplitAllLastEmpty(rest, c);
      var r := SplitAll(s, c);
      assert r == [s[..k]] + rr;
      assert r[|r| - 1] == rr[|rr| - 1];
      if rest != "" {
        assert rest[|rest| - 1] == s[|s| - 1];
      } else {
        assert k == |s| - 1;
      }
    } else if s != "" {
      assert SplitAll(s, c) == [s];
      assert s[|s| - 1] in s;
    }
  }

  /** `ps` without its trailing empty pieces. */
  function DropTrailingEmpty(ps: seq<string>): (r: seq<string>)
    ensures r <= ps
    ensures r == [] || r[|r| - 1] != ""
    ensures forall i :: |r| <= i < |ps| ==> ps[i] == ""
  {
    if ps == [] then []
    else if ps[|ps| - 1] == "" then DropTrailingEmpty(ps[..|ps| - 1])
    else ps
  }

  /** String.split(String.valueOf(c)) with limit 0: the whole text when `c` does
      not occur (so "" gives [""]), otherwise every piece between occurrences
      with the trailing empty pieces removed. */
  function JavaSplit(s: string, c: char): seq<string>
  {
    if c !in s then [s] else DropTrailingEmpty(SplitAll(s, c))
  }

  /** No line of a Java split holds the separator. */
  lemma JavaSplitPieces(s: string, c: char)
    ensures forall i :: 0 <= i < |JavaSplit(s, c)| ==> c !in JavaSplit(s, c)[i]
  {
    if c in s {
      SplitAllPieces(s, c);
    }
  }

  /** Text that does not end with the separator splits into all of its pieces. */
  lemma JavaSplitKeepsAll(s: string, c: char)
    requires s != "" && s[|s| - 1] != c
    ensures JavaSplit(s, c) == SplitAll(s, c)
  {
    SplitAllLastEmpty(s, c);
  }

  /** Text made only of separators splits into nothing at all. */
  lemma {:induction false} JavaSplitOnlySeparators(s: string, c: char)
    requires s != [] && forall i :: 0 <= i < |s| ==> s[i] == c
    ensures JavaSplit(s, c) == []
    decreases |s|
  {
    assert s[0] in s;
    var r := SplitAll(s, c);
    var i := IndexOf(s, c);
    assert i == 0;
    var rest := s[1..];
    var rr := SplitAll(rest, c);
    assert r == [""] + rr;
    if rest == [] {
      assert rr == [""];
    } else {
      JavaSplitOnlySeparators(rest, c);
      assert rest[0] in rest;
    }
    assert forall k :: 0 <= k < |rr| ==> rr[k] == "";
    DropAllEmpty(r);
  }

  /** Dropping trailing empty pieces removes everything when every piece is empty. */
  lemma {:induction false} DropAllEmpty(ps: seq<string>)
    requires forall i :: 0 <= i < |ps| ==> ps[i] == ""
    ensures DropTrailingEmpty(ps) == []
    decreases |ps|
  {
    if ps != [] {
      DropAllEmpty(ps[..|ps| - 1]);
    }
  }
}
