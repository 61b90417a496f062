/**
 The snapshot file: one line for each pair, with the separators of the format escaped.

 The file is a byte sequence. Opening, flushing, backups and the detached writer are left out.
 */
module Snapshots {
  import opened Collections
  import opened TextLines

  // ---------- escaping ----------

  function EscapeChar(c: char): string {
    match c
    case ' ' => "\\s"
    case '\n' => "\\n"
    case '\r' => "\\r"
    case '\t' => "\\t"
    case '\\' => "\\\\"
    case _ => [c]
  }

  function Escape(s: string): string {
    if s == "" then "" else EscapeChar(s[0]) + Escape(s[1..])
  }

  /** The character an escape letter stands for; None for a letter that ends no escape. */
  function Meaning(c: char): (m: seq<char>)
    ensures |m| <= 1
  {
    match c
    case 's' => [' ']
    case 'n' => ['\n']
    case 'r' => ['\r']
    case 't' => ['\t']
    case '\\' => ['\\']
    case _ => []
  }

  /** A backslash that begins no escape stands for itself. */
  function Unescape(s: string): string {
    if s == "" then ""
    else if s[0] == '\\' && |s| > 1 && Meaning(s[1]) != [] then Meaning(s[1]) + Unescape(s[2..])
    else [s[0]] + Unescape(s[1..])
  }

  predicate NoSeparator(s: string) {
    forall i :: 0 <= i < |s| ==> s[i] !in " \n\r\t"
  }

  lemma UnescapeChar(c: char, t: string)
    ensures Unescape(EscapeChar(c) + t) == [c] + Unescape(t)
  {
    var s := EscapeChar(c) + t;
    if |EscapeChar(c)| == 2 {
      assert s[2..] == t;
    } else {
      assert s[1..] == t;
    }
  }

  lemma {:induction false} UnescapeEscape(a: string, t: string)
    ensures Unescape(Escape(a) + t) == a + Unescape(t)
  {
    if a == "" {
      assert Escape(a) + t == t;
    } else {
      UnescapeEscape(a[1..], t);
      Assoc(EscapeChar(a[0]), Escape(a[1..]), t);
      UnescapeChar(a[0], Escape(a[1..]) + t);
      Assoc([a[0]], a[1..], Unescape(t));
      assert [a[0]] + a[1..] == a;
    }
  }

  lemma {:induction false} EscapedHasNoSeparator(a: string)
    ensures NoSeparator(Escape(a))
  {
    if a != "" {
      EscapedHasNoSeparator(a[1..]);
    }
  }

  /** Escaping undoes itself and leaves no separator, so no two strings are written alike. */
  lemma EscapeRoundTrip(a: string)
    ensures Unescape(Escape(a)) == a && ' ' !in Escape(a) && '\n' !in Escape(a)
  {
    UnescapeEscape(a, "");
    assert Escape(a) + "" == Escape(a);
    EscapedHasNoSeparator(a);
  }

  // ---------- the file format ----------

  function Line(k: string, v: string): string {
    Escape(k) + " " + Escape(v)
  }

  /** The file written when the pairs are visited in the order of ks. */
  function Encode(ks: seq<string>, data: map<string, string>): string
    requires forall i :: 0 <= i < |ks| ==> ks[i] in data
  {
    if ks == [] then "" else Line(ks[0], data[ks[0]]) + "\n" + Encode(ks[1..], data)
  }

  /** Lines without a space are skipped; a later line for the same key overrides. */
  function LoadLine(line: string, data: map<string, string>): map<string, string> {
    var i := FirstOf(line, ' ');
    if i == |line| then data else data[Unescape(line[..i]) := Unescape(line[i+1..])]
  }

  function LoadLines(lines: seq<string>, data: map<string, string>): map<string, string> {
    if lines == [] then data else LoadLines(lines[1..], LoadLine(lines[0], data))
  }

  function Load(file: string): map<string, string> {
    LoadLines(Pieces(file, '\n'), map[])
  }

  /** ks lists the keys of the map, each once: one possible iteration order of the map. */
  ghost predicate Enumerates(ks: seq<string>, data: map<string, string>) {
    && (forall i, j :: 0 <= i < j < |ks| ==> ks[i] != ks[j])
    && (forall k :: k in ks <==> k in data)
  }

  /** In the middle of an iteration: ks lists the keys visited so far, pending holds the others. */
  ghost predicate Visited(ks: seq<string>, data: map<string, string>, pending: set<string>) {
    && pending <= data.Keys && |ks| == |data| - |pending|
    && (forall k :: k in ks <==> k in data && k !in pending)
    && (forall i, j :: 0 <= i < j < |ks| ==> ks[i] != ks[j])
  }

  lemma VisitNext(ks: seq<string>, data: map<string, string>, pending: set<string>, key: string)
    requires Visited(ks, data, pending) && key in pending
    ensures Visited(ks + [key], data, pending - {key}) && |ks| < |data|
  {
    assert |data| == |data.Keys| && |pending - {key}| == |pending| - 1;
    assert ks + [key] != [] && forall k :: k in ks + [key] <==> k in ks || k == key;
    assert pending == (pending - {key}) + {key};
    SubsetSize(pending, data.Keys);
  }

  lemma LoadLineOfLine(k: string, v: string, data: map<string, string>)
    ensures LoadLine(Line(k, v), data) == data[k := v] && '\n' !in Line(k, v)
  {
    EscapeRoundTrip(k);
    EscapeRoundTrip(v);
    var line := Line(k, v);
    assert line == Escape(k) + [' '] + Escape(v);
    FirstIs(Escape(k), ' ', Escape(v));
    assert line[|Escape(k)|+1..] == Escape(v) && line[..|Escape(k)|] == Escape(k);
  }

  function Listed(ks: seq<string>, data: map<string, string>): map<string, string> {
    map k | k in data && k in ks :: data[k]
  }

  lemma ListedCons(ks: seq<string>, data: map<string, string>, acc: map<string, string>)
    requires ks != [] && ks[0] in data
    ensures acc[ks[0] := data[ks[0]]] + Listed(ks[1..], data) == acc + Listed(ks, data)
  {
    assert ks == [ks[0]] + ks[1..];
  }

  lemma LoadCons(line: string, rest: string, acc: map<string, string>)
    requires '\n' !in line
    ensures LoadLines(Pieces(line + "\n" + rest, '\n'), acc) == LoadLines(Pieces(rest, '\n'), LoadLine(line, acc))
  {
    PiecesCons(line, '\n', rest);
    var ps := Pieces(line + ['\n'] + rest, '\n');
    assert ps[0] == line && ps[1..] == Pieces(rest, '\n');
  }

  lemma {:induction false} LoadEncode(ks: seq<string>, data: map<string, string>, acc: map<string, string>)
    requires forall i :: 0 <= i < |ks| ==> ks[i] in data
    ensures LoadLines(Pieces(Encode(ks, data), '\n'), acc) == acc + Listed(ks, data)
  {
    if ks == [] {
      assert Listed(ks, data) == map[];
    } else {
      var k := ks[0];
      LoadLineOfLine(k, data[k], acc);
      LoadCons(Line(k, data[k]), Encode(ks[1..], data), acc);
      LoadEncode(ks[1..], data, acc[k := data[k]]);
      ListedCons(ks, data, acc);
    }
  }

  /** Loading what was written gives back the map, for every map and every iteration order. */
  lemma SnapshotRoundTrip(ks: seq<string>, data: map<string, string>)
    requires Enumerates(ks, data)
    ensures Load(Encode(ks, data)) == data
  {
    LoadEncode(ks, data, map[]);
    assert map[] + Listed(ks, data) == data;
  }

  // ---------- the format in characters ----------

  /** The five escapes, and what every other character is written as. */
  lemma EscapesAre(c: char)
    ensures Escape(" ") == "\\s" && Escape("\n") == "\\n" && Escape("\r") == "\\r" && Escape("\t") == "\\t"
    ensures Escape("\\") == "\\\\"
    ensures c !in " \n\r\t\\" ==> Escape([c]) == [c]
  {
    EscapeOne(' ');
    EscapeOne('\n');
    EscapeOne('\r');
    EscapeOne('\t');
    EscapeOne('\\');
    EscapeOne(c);
  }

  lemma EscapeOne(c: char)
    ensures Escape([c]) == EscapeChar(c)
  {
    assert [c][1..] == "";
    assert EscapeChar(c) + "" == EscapeChar(c);
  }

  /** A backslash in front of another letter than the five, or at the end, stands for itself. */
  lemma LoneBackslash(c: char, rest: string)
    ensures Unescape("\\") == "\\"
    ensures c !in "snrt\\" ==> Unescape("\\" + ([c] + rest)) == "\\" + Unescape([c] + rest)
  {
    assert "\\"[1..] == "" && "\\" + "" == "\\";
    var s := "\\" + ([c] + rest);
    assert s[0] == '\\' && s[1] == c && s[1..] == [c] + rest;
  }

  lemma {:induction false} LoadLinesConcat(a: seq<string>, b: seq<string>, data: map<string, string>)
    ensures LoadLines(a + b, data) == LoadLines(b, LoadLines(a, data))
  {
    if a == [] {
      assert a + b == b;
    } else {
      assert (a + b)[1..] == a[1..] + b;
      LoadLinesConcat(a[1..], b, LoadLine(a[0], data));
    }
  }

  /** A line behind complete lines is loaded last. */
  lemma LoadSnoc(f: string, line: string)
    requires '\n' !in line && (f == "" || f[|f|-1] == '\n')
    ensures Load(f + (line + "\n")) == LoadLine(line, Load(f))
  {
    PiecesConcat(f, '\n', line + "\n");
    PiecesCons(line, '\n', "");
    assert line + "\n" == line + ['\n'] + "";
    var ps := Pieces(f, '\n');
    LoadLinesConcat(ps, [line], map[]);
    assert [line] + [] == [line] && LoadLines([line], Load(f)) == LoadLines([line][1..], LoadLine(line, Load(f)));
  }

  /** A written pair behind any complete lines sets its key, overriding what they gave. */
  lemma LaterPairOverrides(f: string, k: string, v: string)
    requires f == "" || f[|f|-1] == '\n'
    ensures Load(f + (Escape(k) + " " + Escape(v) + "\n")) == Load(f)[k := v]
  {
    LoadLineOfLine(k, v, Load(f));
    LoadSnoc(f, Line(k, v));
  }

  /** A line without a space gives nothing. */
  lemma SpacelessLineIsSkipped(f: string, line: string)
    requires '\n' !in line && ' ' !in line && (f == "" || f[|f|-1] == '\n')
    ensures Load(f + (line + "\n")) == Load(f)
  {
    LoadSnoc(f, line);
  }

  // ---------- the code ----------

  lemma EscapeStep(s: string, i: nat, before: string)
    requires i < |s|
    ensures before + Escape(s[i..]) == before + EscapeChar(s[i]) + Escape(s[i+1..])
  {
    assert s[i..][1..] == s[i+1..];
    Assoc(before, EscapeChar(s[i]), Escape(s[i+1..]));
  }

  method EscapeString(s: string) returns (escaped: string)
    ensures escaped == Escape(s)
  {
    escaped := "";
    assert s[0..] == s;
    for i := 0 to |s|
      invariant Escape(s) == escaped + Escape(s[i..])
    {
      EscapeStep(s, i, escaped);
      match s[i]
      case ' ' => escaped := escaped + "\\s";
      case '\n' => escaped := escaped + "\\n";
      case '\r' => escaped := escaped + "\\r";
      case '\t' => escaped := escaped + "\\t";
      case '\\' => escaped := escaped + "\\\\";
      case _ => escaped := escaped + [s[i]];
    }
  }

  /** What the loop below consumes at place i: the number of characters, and what they stand for. */
  function UnescapeAt(s: string, i: nat): (nat, string)
    requires i < |s|
  {
    if s[i] == '\\' && i + 1 < |s| && Meaning(s[i+1]) != [] then (2, Meaning(s[i+1])) else (1, [s[i]])
  }

  lemma UnescapeStep(s: string, i: nat, before: string)
    requires i < |s|
    ensures var (n, t) := UnescapeAt(s, i);
            before + Unescape(s[i..]) == before + t + Unescape(s[i+n..])
  {
    var (n, t) := UnescapeAt(s, i);
    assert s[i..][n..] == s[i+n..];
    Assoc(before, t, Unescape(s[i+n..]));
  }

  method UnescapeString(s: string) returns (unescaped: string)
    ensures unescaped == Unescape(s)
  {
    unescaped := "";
    var i := 0;
    assert s[0..] == s;
    while i < |s|
      invariant i <= |s| && Unescape(s) == unescaped + Unescape(s[i..])
    {
      UnescapeStep(s, i, unescaped);
      if s[i] == '\\' && i + 1 < |s| {
        match s[i+1]
        case 's' => unescaped := unescaped + " "; i := i + 1;
        case 'n' => unescaped := unescaped + "\n"; i := i + 1;
        case 'r' => unescaped := unescaped + "\r"; i := i + 1;
        case 't' => unescaped := unescaped + "\t"; i := i + 1;
        case '\\' => unescaped := unescaped + "\\"; i := i + 1;
        case _ => unescaped := unescaped + [s[i]];
      } else {
        unescaped := unescaped + [s[i]];
      }
      i := i + 1;
    }
  }

  class Persistence {
    var file: string

    constructor (file: string)
      ensures this.file == file
    {
      this.file := file;
    }

    /** Overwrites the file; the pairs are visited in whatever order the map is iterated. */
    method Snapshot(data: map<string, string>) returns (ghost ks: seq<string>)
      modifies this
      ensures Enumerates(ks, data) && file == Encode(ks, data)
      ensures Load(file) == data
    {
      file := "";
      ks := [];
      var pending := data.Keys;
      while pending != {}
        invariant Visited(ks, data, pending) && file == Encode(ks, data)
        decreases pending
      {
        var key :| key in pending;
        var escapedKey := EscapeString(key);
        var escapedValue := EscapeString(data[key]);
        file := file + escapedKey + " " + escapedValue + "\n";
        WrittenLine(ks, key, data);
        VisitNext(ks, data, pending, key);
        ks := ks + [key];
        pending := pending - {key};
      }
      SnapshotRoundTrip(ks, data);
    }

    method LoadAll() returns (data: map<string, string>)
      ensures data == Load(file)
    {
      data := map[];
      var rest := file;
      while rest != ""
        invariant Load(file) == LoadLines(Pieces(rest, '\n'), data)
        decreases |rest|
      {
        var line := Piece(rest, '\n');
        assert Pieces(rest, '\n')[1..] == Pieces(AfterPiece(rest, '\n'), '\n');
        rest := AfterPiece(rest, '\n');
        var space := FirstOf(line, ' ');
        if line != "" && space != |line| {
          var key := UnescapeString(line[..space]);
          var value := UnescapeString(line[space+1..]);
          data := data[key := value];
        }
      }
    }
  }

  lemma {:induction false} EncodeSnoc(ks: seq<string>, k: string, data: map<string, string>)
    requires k in data && forall i :: 0 <= i < |ks| ==> ks[i] in data
    ensures Encode(ks + [k], data) == Encode(ks, data) + (Line(k, data[k]) + "\n")
  {
    if ks == [] {
      assert ([] + [k])[1..] == [];
      assert Encode([k], data) == Line(k, data[k]) + "\n" + Encode([k][1..], data);
    } else {
      EncodeSnoc(ks[1..], k, data);
      assert (ks + [k])[1..] == ks[1..] + [k];
      Assoc(Line(ks[0], data[ks[0]]) + "\n", Encode(ks[1..], data), Line(k, data[k]) + "\n");
    }
  }

  lemma WrittenLine(ks: seq<string>, k: string, data: map<string, string>)
    requires k in data && forall i :: 0 <= i < |ks| ==> ks[i] in data
    ensures Encode(ks + [k], data) == Encode(ks, data) + Escape(k) + " " + Escape(data[k]) + "\n"
  {
    EncodeSnoc(ks, k, data);
  }
}
