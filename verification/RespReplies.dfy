/**
 The replies of the wire protocol (Redis serialization protocol) and why a reader can always tell them apart.
 */
module RespReplies {
  import opened Collections
  import opened TextLines

  // ---------- decimal numbers ----------

  function Digit(d: nat): char
    requires d < 10
  {
    ['0', '1', '2', '3', '4', '5', '6', '7', '8', '9'][d]
  }

  predicate IsDigit(c: char) {
    '0' <= c <= '9'
  }

  function Decimal(n: nat): (s: string)
    ensures s != "" && forall i :: 0 <= i < |s| ==> IsDigit(s[i])
  {
    if n < 10 then [Digit(n)] else Decimal(n / 10) + [Digit(n % 10)]
  }

  function DecimalInt(n: int): string {
    if n < 0 then "-" + Decimal(-n) else Decimal(n)
  }

  lemma {:induction false} DecimalInjective(m: nat, n: nat)
    requires Decimal(m) == Decimal(n)
    ensures m == n
  {
    var s, t := Decimal(m), Decimal(n);
    if m >= 10 && n >= 10 {
      assert s[|s|-1] == Digit(m % 10) && t[|t|-1] == Digit(n % 10);
      assert s[..|s|-1] == Decimal(m / 10) && t[..|t|-1] == Decimal(n / 10);
      DecimalInjective(m / 10, n / 10);
    } else {
      DecimalLong(m);
      DecimalLong(n);
    }
  }

  lemma DecimalLong(n: nat)
    ensures |Decimal(n)| == 1 <==> n < 10
  {
  }

  lemma DecimalIntInjective(m: int, n: int)
    requires DecimalInt(m) == DecimalInt(n)
    ensures m == n
  {
    assert DecimalInt(m)[0] == DecimalInt(n)[0];
    if m < 0 {
      assert DecimalInt(m)[1..] == Decimal(-m);
      assert n < 0;
      assert DecimalInt(n)[1..] == Decimal(-n);
      DecimalInjective(-m, -n);
    } else {
      assert n >= 0;
      DecimalInjective(m, n);
    }
  }

  // ---------- the serializers ----------

  function SerializeSimple(s: string): string { "+" + s + "\r\n" }

  function SerializeError(s: string): string { "-" + s + "\r\n" }

  function SerializeInteger(n: int): string { ":" + DecimalInt(n) + "\r\n" }

  function SerializeBulk(data: string): string {
    "$" + Decimal(|data|) + "\r\n" + data + "\r\n"
  }

  function SerializeNil(): string { "$-1\r\n" }

  function SerializeAll(items: seq<string>): string {
    if items == [] then "" else SerializeBulk(items[0]) + SerializeAll(items[1..])
  }

  function SerializeArray(items: seq<string>): string {
    "*" + Decimal(|items|) + "\r\n" + SerializeAll(items)
  }

  lemma {:induction false} SerializeAllSnoc(items: seq<string>, item: string)
    ensures SerializeAll(items + [item]) == SerializeAll(items) + SerializeBulk(item)
  {
    if items == [] {
      assert ([] + [item])[1..] == [];
    } else {
      SerializeAllSnoc(items[1..], item);
      assert (items + [item])[1..] == items[1..] + [item];
      Assoc(SerializeBulk(items[0]), SerializeAll(items[1..]), SerializeBulk(item));
    }
  }

  method BuildArray(items: seq<string>) returns (result: string)
    ensures result == SerializeArray(items)
  {
    result := "*" + Decimal(|items|) + "\r\n";
    ghost var head := result;
    for i := 0 to |items|
      invariant result == head + SerializeAll(items[..i])
    {
      SerializeAllSnoc(items[..i], items[i]);
      assert items[..i+1] == items[..i] + [items[i]];
      Assoc(head, SerializeAll(items[..i]), SerializeBulk(items[i]));
      result := result + SerializeBulk(items[i]);
    }
    assert items[..|items|] == items;
  }

  // ---------- the bytes of a reply ----------

  datatype Reply =
    | Simple(s: string)
    | Error(s: string)
    | Integer(n: int)
    | Bulk(s: string)
    | Nil
    | Array(items: seq<string>)

  function Serialize(r: Reply): string {
    match r
    case Simple(s) => SerializeSimple(s)
    case Error(s) => SerializeError(s)
    case Integer(n) => SerializeInteger(n)
    case Bulk(s) => SerializeBulk(s)
    case Nil => SerializeNil()
    case Array(items) => SerializeArray(items)
  }

  /** The number that a text of decimal digits writes, the last digit counting once. */
  function ValueOf(s: string): nat
    requires forall i :: 0 <= i < |s| ==> '0' <= s[i] <= '9'
  {
    if s == "" then 0 else 10 * ValueOf(s[..|s|-1]) + (s[|s|-1] as int - '0' as int)
  }

  /** Decimal digits without a leading zero, of the value n. */
  ghost predicate Writes(s: string, n: nat) {
    && s != "" && (forall i :: 0 <= i < |s| ==> '0' <= s[i] <= '9')
    && (|s| > 1 ==> s[0] != '0') && ValueOf(s) == n
  }

  lemma DigitAt(d: nat)
    requires d < 10
    ensures Digit(d) as int == '0' as int + d
  {
  }

  lemma {:induction false} DecimalWrites(n: nat)
    ensures Writes(Decimal(n), n) && (n > 0 ==> Decimal(n)[0] != '0')
  {
    var s := Decimal(n);
    DigitAt(n % 10);
    if n < 10 {
      DigitAt(n);
      assert s[..0] == "" && ValueOf("") == 0;
    } else {
      DecimalWrites(n / 10);
      assert s[..|s|-1] == Decimal(n / 10) && s[|s|-1] == Digit(n % 10);
      assert s[0] == Decimal(n / 10)[0];
    }
  }

  /** The line replies: a type byte, the payload and CR LF; a nil reply is a bulk reply of length -1. */
  lemma LineFormats(s: string)
    ensures Serialize(Simple(s)) == "+" + s + "\r\n" && Serialize(Error(s)) == "-" + s + "\r\n"
    ensures Serialize(Nil) == "$-1\r\n"
  {
  }

  /** An integer in decimal, with a sign when negative. */
  lemma IntegerFormat(n: int) returns (d: string)
    ensures Writes(d, if n < 0 then -n else n)
    ensures Serialize(Integer(n)) == ":" + (if n < 0 then "-" + d else d) + "\r\n"
  {
    d := Decimal(if n < 0 then -n else n);
    DecimalWrites(if n < 0 then -n else n);
  }

  /** The length of the payload in decimal, and the payload. */
  lemma BulkFormat(s: string) returns (d: string)
    ensures Writes(d, |s|) && Serialize(Bulk(s)) == "$" + d + "\r\n" + s + "\r\n"
  {
    d := Decimal(|s|);
    DecimalWrites(|s|);
  }

  /** The number of items in decimal, and the items as bulk replies, in order. */
  lemma ArrayFormat(items: seq<string>, item: string) returns (d: string)
    ensures Writes(d, |items|) && Serialize(Array(items)) == "*" + d + "\r\n" + SerializeAll(items)
    ensures SerializeAll([]) == "" && SerializeAll(items + [item]) == SerializeAll(items) + Serialize(Bulk(item))
  {
    d := Decimal(|items|);
    DecimalWrites(|items|);
    SerializeAllSnoc(items, item);
  }

  // ---------- unique decodability ----------

  /** A text without carriage return is told apart from what follows its line end. */
  lemma UntilLineEnd(p: string, q: string, u: string, v: string)
    requires '\r' !in p && '\r' !in q
    requires p + "\r\n" + u == q + "\r\n" + v
    ensures p == q && u == v
  {
    FirstIs(p, '\r', "\n" + u);
    FirstIs(q, '\r', "\n" + v);
    assert p + "\r\n" + u == p + ['\r'] + ("\n" + u);
    assert q + "\r\n" + v == q + ['\r'] + ("\n" + v);
    assert p == (p + "\r\n" + u)[..|p|] == (q + "\r\n" + v)[..|q|] == q;
    assert u == (p + "\r\n" + u)[|p|+2..] == (q + "\r\n" + v)[|q|+2..] == v;
  }

  lemma SameLengthParts(p: string, q: string, u: string, v: string)
    requires |p| == |q| && p + u == q + v
    ensures p == q && u == v
  {
    assert p == (p + u)[..|p|] == (q + v)[..|q|] == q;
    assert u == (p + u)[|p|..] == (q + v)[|q|..] == v;
  }

  lemma Nest(p: string, a: string, b: string, c: string)
    ensures p + a + b + c == p + (a + (b + c))
    ensures p + a + b + c == p + (a + b + c)
  {
  }

  lemma BulkLayout(a: string, x: string)
    ensures SerializeBulk(a) + x == "$" + Decimal(|a|) + "\r\n" + (a + ("\r\n" + x))
  {
    Nest("$" + Decimal(|a|) + "\r\n", a, "\r\n", x);
  }

  /** A bulk reply can be cut off the front of any stream, whatever bytes it carries. */
  lemma BulkUnique(a: string, b: string, x: string, y: string)
    requires SerializeBulk(a) + x == SerializeBulk(b) + y
    ensures a == b && x == y
  {
    BulkLayout(a, x);
    BulkLayout(b, y);
    UntilLineEnd("$" + Decimal(|a|), "$" + Decimal(|b|), a + ("\r\n" + x), b + ("\r\n" + y));
    SameLengthParts("$", "$", Decimal(|a|), Decimal(|b|));
    DecimalInjective(|a|, |b|);
    SameLengthParts(a, b, "\r\n" + x, "\r\n" + y);
    SameLengthParts("\r\n", "\r\n", x, y);
  }

  lemma {:induction false} ItemsUnique(a: seq<string>, b: seq<string>, x: string, y: string)
    requires |a| == |b| && SerializeAll(a) + x == SerializeAll(b) + y
    ensures a == b && x == y
  {
    if a == [] {
      assert SerializeAll(a) + x == x && SerializeAll(b) + y == y;
    } else {
      Assoc(SerializeBulk(a[0]), SerializeAll(a[1..]), x);
      Assoc(SerializeBulk(b[0]), SerializeAll(b[1..]), y);
      BulkUnique(a[0], b[0], SerializeAll(a[1..]) + x, SerializeAll(b[1..]) + y);
      ItemsUnique(a[1..], b[1..], x, y);
      assert a == [a[0]] + a[1..] && b == [b[0]] + b[1..];
    }
  }

  lemma ArrayUnique(a: seq<string>, b: seq<string>, x: string, y: string)
    requires SerializeArray(a) + x == SerializeArray(b) + y
    ensures a == b && x == y
  {
    Assoc("*" + Decimal(|a|) + "\r\n", SerializeAll(a), x);
    Assoc("*" + Decimal(|b|) + "\r\n", SerializeAll(b), y);
    UntilLineEnd("*" + Decimal(|a|), "*" + Decimal(|b|), SerializeAll(a) + x, SerializeAll(b) + y);
    SameLengthParts("*", "*", Decimal(|a|), Decimal(|b|));
    DecimalInjective(|a|, |b|);
    ItemsUnique(a, b, x, y);
  }

  lemma IntegerUnique(m: int, n: int, x: string, y: string)
    requires SerializeInteger(m) + x == SerializeInteger(n) + y
    ensures m == n && x == y
  {
    UntilLineEnd(":" + DecimalInt(m), ":" + DecimalInt(n), x, y);
    SameLengthParts(":", ":", DecimalInt(m), DecimalInt(n));
    DecimalIntInjective(m, n);
  }

  /** A payload of a line reply without a line end inside. */
  ghost predicate OneLine(s: string) {
    forall i {:trigger s[i]} :: 0 <= i < |s| - 1 ==> !(s[i] == '\r' && s[i+1] == '\n')
  }

  lemma LineNotShorter(s: string, t: string, x: string, y: string)
    requires OneLine(t) && s + "\r\n" + x == t + "\r\n" + y
    ensures |s| >= |t|
  {
    var l := s + "\r\n" + x;
    assert l[|s|] == '\r' && l[|s|+1] == '\n' && l[|t|] == '\r';
    assert forall i :: 0 <= i < |t| ==> t[i] == l[i];
  }

  lemma LineUnique(s: string, t: string, x: string, y: string)
    requires OneLine(s) && OneLine(t)
    requires s + "\r\n" + x == t + "\r\n" + y
    ensures s == t && x == y
  {
    LineNotShorter(s, t, x, y);
    LineNotShorter(t, s, y, x);
    Assoc(s, "\r\n", x);
    Assoc(t, "\r\n", y);
    SameLengthParts(s, t, "\r\n" + x, "\r\n" + y);
    SameLengthParts("\r\n", "\r\n", x, y);
  }

  /** A line reply has a different, shorter line reply in front of it exactly when its payload holds a line end. */
  lemma LineAmbiguousIff(s: string)
    ensures (exists t :: OneLine(t) && t != s && SerializeSimple(t) <= SerializeSimple(s)) <==> !OneLine(s)
  {
    if !OneLine(s) {
      var i := FirstLineEnd(s);
      var t := s[..i];
      assert SerializeSimple(s) == SerializeSimple(t) + s[i+2..] + "\r\n";
    } else {
      forall t | OneLine(t) && SerializeSimple(t) <= SerializeSimple(s) ensures t == s {
        var rest := SerializeSimple(s)[|SerializeSimple(t)|..];
        assert SerializeSimple(s) == SerializeSimple(t) + rest;
        Nest("+", s, "\r\n", "");
        Nest("+", t, "\r\n", rest);
        SameLengthParts("+", "+", s + "\r\n" + "", t + "\r\n" + rest);
        LineUnique(s, t, "", rest);
      }
    }
  }

  lemma {:induction false} FirstLineEnd(s: string) returns (i: nat)
    requires !OneLine(s)
    ensures i + 1 < |s| && s[i] == '\r' && s[i+1] == '\n' && OneLine(s[..i])
  {
    if s[0] == '\r' && s[1] == '\n' {
      i := 0;
    } else {
      i := FirstLineEnd(s[1..]);
      assert forall j :: 0 <= j < i ==> s[1..][..i][j] == s[..i+1][j+1];
      i := i + 1;
    }
  }

  // ---------- all replies together ----------

  ghost predicate WellFormed(r: Reply) {
    (r.Simple? || r.Error?) ==> OneLine(r.s)
  }

  /** The first byte tells the kinds apart, and the second tells a nil from a bulk reply. */
  lemma KindsDiffer(r: Reply, t: Reply, x: string, y: string)
    requires Serialize(r) + x == Serialize(t) + y
    ensures r.Simple? == t.Simple? && r.Error? == t.Error? && r.Integer? == t.Integer? && r.Array? == t.Array?
    ensures r.Bulk? == t.Bulk? && r.Nil? == t.Nil?
  {
    var l := Serialize(r) + x;
    assert l[0] == Serialize(r)[0] == Serialize(t)[0];
    assert l[1] == Serialize(r)[1] == Serialize(t)[1];
    assert r.Bulk? ==> IsDigit(Serialize(r)[1]);
    assert t.Bulk? ==> IsDigit(Serialize(t)[1]);
  }

  /** In a stream of replies each one is read in a single way, and so is what follows it. */
  lemma RepliesUnique(r: Reply, t: Reply, x: string, y: string)
    requires WellFormed(r) && WellFormed(t) && Serialize(r) + x == Serialize(t) + y
    ensures r == t && x == y
  {
    KindsDiffer(r, t, x, y);
    match r
    case Simple(s) =>
      Nest("+", s, "\r\n", x);
      Nest("+", t.s, "\r\n", y);
      SameLengthParts("+", "+", s + "\r\n" + x, t.s + "\r\n" + y);
      LineUnique(s, t.s, x, y);
    case Error(s) =>
      Nest("-", s, "\r\n", x);
      Nest("-", t.s, "\r\n", y);
      SameLengthParts("-", "-", s + "\r\n" + x, t.s + "\r\n" + y);
      LineUnique(s, t.s, x, y);
    case Integer(n) => IntegerUnique(n, t.n, x, y);
    case Bulk(s) => BulkUnique(s, t.s, x, y);
    case Nil => SameLengthParts(SerializeNil(), SerializeNil(), x, y);
    case Array(items) => ArrayUnique(items, t.items, x, y);
  }
}
