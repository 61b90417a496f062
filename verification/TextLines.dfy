/**
 Reading delimited text, as `std::getline` does: a piece ends at the next delimiter or at the end of
 the text, and no piece follows a delimiter that ends the text.

 A character of a string stands for one byte; nothing below depends on how many characters there are.
 */
module TextLines {
  import opened Collections

  /** The place of the first c, or the length if there is none. */
  function FirstOf(s: string, c: char): (i: nat)
    ensures i <= |s| && c !in s[..i] && (i < |s| ==> s[i] == c)
  {
    if s == "" || s[0] == c then 0
    else
      var i := 1 + FirstOf(s[1..], c);
      assert s[..i] == [s[0]] + s[1..][..i-1];
      i
  }

  function Piece(s: string, d: char): string {
    s[..FirstOf(s, d)]
  }

  function AfterPiece(s: string, d: char): (rest: string)
    ensures s != "" ==> |rest| < |s|
  {
    var i := FirstOf(s, d);
    if i == |s| then "" else s[i+1..]
  }

  function Pieces(s: string, d: char): seq<string>
    decreases |s|
  {
    if s == "" then [] else [Piece(s, d)] + Pieces(AfterPiece(s, d), d)
  }

  lemma {:induction false} FirstIs(a: string, c: char, rest: string)
    requires c !in a
    ensures FirstOf(a + [c] + rest, c) == FirstOf(a, c) == |a|
  {
    if a != "" {
      assert forall x :: x in a[1..] ==> x in a;
      FirstIs(a[1..], c, rest);
      assert (a + [c] + rest)[1..] == a[1..] + [c] + rest;
    }
  }

  lemma PiecesCons(a: string, d: char, rest: string)
    requires d !in a
    ensures Pieces(a + [d] + rest, d) == [a] + Pieces(rest, d)
  {
    FirstIs(a, d, rest);
    var s := a + [d] + rest;
    assert Piece(s, d) == a && AfterPiece(s, d) == rest;
  }

  lemma PiecesOne(a: string, d: char)
    requires d !in a && a != ""
    ensures Pieces(a, d) == [a]
  {
    FirstIs(a, d, "");
    assert Piece(a, d) == a && AfterPiece(a, d) == "";
  }

  lemma {:induction false} PiecesMembers(s: string, d: char)
    ensures forall p :: p in Pieces(s, d) ==> d !in p
    decreases |s|
  {
    if s != "" {
      PiecesMembers(AfterPiece(s, d), d);
    }
  }

  lemma CutFirst(f: string, d: char) returns (a: string, rest: string)
    requires f != "" && f[|f|-1] == d
    ensures d !in a && f == a + [d] + rest && (rest == "" || rest[|rest|-1] == d)
  {
    assert f[|f|-1] in f;
    var i := FirstOf(f, d);
    a, rest := f[..i], f[i+1..];
  }

  /** The pieces of a text that ends in the delimiter, or is empty, come before those of what follows. */
  lemma {:induction false} PiecesConcat(f: string, d: char, x: string)
    requires f == "" || f[|f|-1] == d
    ensures Pieces(f + x, d) == Pieces(f, d) + Pieces(x, d)
    decreases |f|
  {
    if f == "" {
      assert f + x == x;
    } else {
      var a, rest := CutFirst(f, d);
      PiecesConcat(rest, d, x);
      PiecesCons(a, d, rest);
      PiecesCons(a, d, rest + x);
      Assoc(a + [d], rest, x);
      Assoc([a], Pieces(rest, d), Pieces(x, d));
    }
  }

  // ---------- counting characters ----------

  /** How many characters of s are not blank. */
  function Others(s: string, blank: char -> bool): nat {
    if s == "" then 0 else (if blank(s[0]) then 0 else 1) + Others(s[1..], blank)
  }

  lemma {:induction false} OthersConcat(a: string, b: string, blank: char -> bool)
    ensures Others(a + b, blank) == Others(a, blank) + Others(b, blank)
  {
    if a == "" {
      assert a + b == b;
    } else {
      assert (a + b)[1..] == a[1..] + b;
      OthersConcat(a[1..], b, blank);
    }
  }
}
