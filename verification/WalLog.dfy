/**
 The write-ahead log: one text line for each write, read back line by line.

 The file is a byte sequence. Opening, flushing and locking are left out.
 */
module WalLog {
  import opened Collections
  import opened TextLines

  datatype Record = Record(op: string, key: string, value: string)

  // ---------- writing ----------

  function Line(r: Record): string {
    r.op + " " + r.key + (if r.value != "" then " " + r.value else "")
  }

  function Encode(r: Record): string {
    Line(r) + "\n"
  }

  function EncodeAll(rs: seq<Record>): string {
    if rs == [] then "" else Encode(rs[0]) + EncodeAll(rs[1..])
  }

  // ---------- reading ----------

  /** The bytes that formatted input passes over. */
  predicate IsSpace(c: char) {
    c == ' ' || c == '\t' || c == '\n' || c == '\r' || c == 11 as char || c == 12 as char
  }

  function SkipSpaces(s: string): (t: string)
    ensures |t| <= |s| && (t != "" ==> !IsSpace(t[0]))
  {
    if s != "" && IsSpace(s[0]) then SkipSpaces(s[1..]) else s
  }

  /** The run of non-space characters that s begins with. */
  function Token(s: string): (t: string)
    ensures t <= s && NoSpaces(t)
    ensures |t| < |s| ==> IsSpace(s[|t|])
  {
    if s == "" || IsSpace(s[0]) then "" else [s[0]] + Token(s[1..])
  }

  predicate NoSpaces(s: string) {
    forall i :: 0 <= i < |s| ==> !IsSpace(s[i])
  }

  function DropOneSpace(s: string): string {
    if s != "" && s[0] == ' ' then s[1..] else s
  }

  function ParseLine(line: string): Record {
    var s := SkipSpaces(line);
    var op := Token(s);
    var s' := SkipSpaces(s[|op|..]);
    var key := Token(s');
    Record(op, key, DropOneSpace(s'[|key|..]))
  }

  /** Empty lines are passed over. */
  function ParseOne(line: string): seq<Record> {
    if line == "" then [] else [ParseLine(line)]
  }

  function ParseLines(lines: seq<string>): seq<Record> {
    if lines == [] then []
    else ParseOne(lines[0]) + ParseLines(lines[1..])
  }

  function Replay(file: string): seq<Record> {
    ParseLines(Pieces(file, '\n'))
  }

  // ---------- which records survive the round trip ----------

  /** An operation and a key that are words, or missing from the right, and a value without line feed. */
  predicate Clean(r: Record) {
    && NoSpaces(r.op) && NoSpaces(r.key) && '\n' !in r.value
    && (r.op == "" ==> r.key == "")
    && (r.key == "" ==> r.value == "")
  }

  predicate AllClean(rs: seq<Record>) {
    forall i :: 0 <= i < |rs| ==> Clean(rs[i])
  }

  lemma {:induction false} TokenOf(a: string, t: string)
    requires NoSpaces(a) && (t != "" ==> IsSpace(t[0]))
    ensures Token(a + t) == a
  {
    if a == "" {
      assert a + t == t;
    } else {
      assert (a + t)[1..] == a[1..] + t;
      TokenOf(a[1..], t);
    }
  }

  lemma SkipNone(s: string)
    requires s == "" || !IsSpace(s[0])
    ensures SkipSpaces(s) == s
  {
  }

  lemma ParseParts(op: string, key: string, t: string)
    requires NoSpaces(op) && NoSpaces(key)
    requires op == "" ==> key == ""
    requires if key == "" then t == "" else t == "" || IsSpace(t[0])
    ensures ParseLine(op + " " + key + t) == Record(op, key, DropOneSpace(t))
  {
    var line := op + " " + key + t;
    if op == "" {
      assert line == " " && SkipSpaces(" ") == "";
    } else {
      assert line == op + (" " + key + t);
      SkipNone(line);
      TokenOf(op, " " + key + t);
      assert line[|op|..] == " " + (key + t);
      assert (" " + (key + t))[1..] == key + t;
      SkipNone(key + t);
      TokenOf(key, t);
      assert (key + t)[|key|..] == t;
    }
  }

  lemma ParseLineOfClean(r: Record)
    requires Clean(r)
    ensures Line(r) != "" && '\n' !in Line(r) && ParseLine(Line(r)) == r
  {
    var t := if r.value != "" then " " + r.value else "";
    ParseParts(r.op, r.key, t);
    assert Line(r) == r.op + " " + r.key + t;
    assert t != "" ==> t[1..] == r.value;
  }

  /** Whatever the file holds, only clean records come out of it. */
  lemma ParseLineIsClean(line: string)
    requires '\n' !in line
    ensures Clean(ParseLine(line))
  {
    var s := SkipSpaces(line);
    SkipKeeps(line);
    var t := s[|Token(s)|..];
    SkipKeeps(t);
    assert forall c :: c in t ==> c in s;
    var s' := SkipSpaces(t);
    var rest := s'[|Token(s')|..];
    assert forall c :: c in rest ==> c in s';
    assert forall c :: c in DropOneSpace(rest) ==> c in rest;
  }

  lemma {:induction false} SkipKeeps(s: string)
    ensures forall c :: c in SkipSpaces(s) ==> c in s
  {
    if s != "" && IsSpace(s[0]) {
      SkipKeeps(s[1..]);
    }
  }

  lemma {:induction false} ParseLinesAreClean(lines: seq<string>)
    requires forall l :: l in lines ==> '\n' !in l
    ensures AllClean(ParseLines(lines))
  {
    if lines != [] {
      assert lines[0] in lines && forall l :: l in lines[1..] ==> l in lines;
      ParseLineIsClean(lines[0]);
      ParseLinesAreClean(lines[1..]);
    }
  }

  lemma ReplayIsClean(file: string)
    ensures AllClean(Replay(file))
  {
    PiecesMembers(file, '\n');
    ParseLinesAreClean(Pieces(file, '\n'));
  }

  lemma ReplayStep(s: string)
    ensures Replay("") == []
    ensures s != "" ==>
      Replay(s) == ParseOne(Piece(s, '\n')) + Replay(AfterPiece(s, '\n'))
  {
    if s != "" {
      var ps := Pieces(s, '\n');
      assert ps[0] == Piece(s, '\n') && ps[1..] == Pieces(AfterPiece(s, '\n'), '\n');
    }
  }

  /** One turn of the reading loop: what the rest of the file gives is the record of its first line and what is left. */
  lemma ReplayMore(all: seq<Record>, ops: seq<Record>, s: string, line: string, rest: string)
    requires s != "" && line == Piece(s, '\n') && rest == AfterPiece(s, '\n')
    requires all == ops + Replay(s)
    ensures |rest| < |s|
    ensures if line == "" then all == ops + Replay(rest) else all == ops + [ParseLine(line)] + Replay(rest)
  {
    ReplayStep(s);
    Assoc(ops, ParseOne(line), Replay(rest));
    assert ops + [] == ops;
  }

  lemma ReplayOne(line: string)
    requires '\n' !in line && line != ""
    ensures Replay(line) == [ParseLine(line)]
  {
    PiecesOne(line, '\n');
    assert ParseLines([line]) == [ParseLine(line)] + ParseLines([line][1..]);
  }

  lemma ReplayTerminated(line: string)
    requires '\n' !in line && line != ""
    ensures Replay(line + "\n") == [ParseLine(line)]
  {
    assert line + "\n" == line + ['\n'] + "";
    FirstIs(line, '\n', "");
    ReplayStep(line + "\n");
    ReplayStep("");
  }

  /** A complete clean line in front of any text is read as its record, and the text as before. */
  lemma ReplayCons(r: Record, rest: string)
    requires Clean(r)
    ensures Replay(Encode(r) + rest) == [r] + Replay(rest)
  {
    ParseLineOfClean(r);
    assert Encode(r) + rest == Line(r) + ['\n'] + rest;
    PiecesCons(Line(r), '\n', rest);
    var ps := Pieces(Encode(r) + rest, '\n');
    assert ps[0] == Line(r) && ps[1..] == Pieces(rest, '\n');
  }

  lemma EncodeAllStep(rs: seq<Record>, rest: string)
    requires rs != []
    ensures EncodeAll(rs) + rest == Encode(rs[0]) + (EncodeAll(rs[1..]) + rest)
  {
  }

  lemma {:induction false} ReplayAppended(rs: seq<Record>, rest: string)
    requires AllClean(rs)
    ensures Replay(EncodeAll(rs) + rest) == rs + Replay(rest)
  {
    if rs == [] {
      assert EncodeAll(rs) + rest == rest;
    } else {
      ReplayAppended(rs[1..], rest);
      EncodeAllStep(rs, rest);
      ReplayCons(rs[0], EncodeAll(rs[1..]) + rest);
      assert rs == [rs[0]] + rs[1..];
      Assoc([rs[0]], rs[1..], Replay(rest));
    }
  }

  /** The log reads back as exactly the records appended to it if and only if all of them are clean. */
  lemma RoundTrip(rs: seq<Record>)
    ensures Replay(EncodeAll(rs)) == rs <==> AllClean(rs)
  {
    ReplayIsClean(EncodeAll(rs));
    if AllClean(rs) {
      ReplayAppended(rs, "");
      assert EncodeAll(rs) + "" == EncodeAll(rs);
    }
  }

  lemma {:induction false} EncodeAllConcat(rs: seq<Record>, ts: seq<Record>)
    ensures EncodeAll(rs + ts) == EncodeAll(rs) + EncodeAll(ts)
  {
    if rs == [] {
      assert rs + ts == ts;
    } else {
      assert (rs + ts)[1..] == rs[1..] + ts;
      EncodeAllConcat(rs[1..], ts);
    }
  }

  lemma EncodeCons(r: Record, rs: seq<Record>)
    ensures EncodeAll([r] + rs) == Encode(r) + EncodeAll(rs)
  {
    assert ([r] + rs)[1..] == rs;
  }

  // ---------- the log file ----------

  class Wal {
    var file: string

    constructor (file: string)
      ensures this.file == file
    {
      this.file := file;
    }

    method Append(op: string, key: string, value: string)
      modifies this
      ensures file == old(file) + Encode(Record(op, key, value))
      ensures file == old(file) + (op + " " + key + (if value == "" then "" else " " + value) + "\n")
    {
      file := file + op + " " + key;
      if value != "" {
        file := file + " " + value;
      }
      file := file + "\n";
      assert file == old(file) + Encode(Record(op, key, value));
    }

    method ReadAll() returns (ops: seq<Record>)
      ensures ops == Replay(file)
    {
      ops := [];
      ghost var all := Replay(file);
      var text := file;
      while text != ""
        invariant all == ops + Replay(text)
        decreases |text|
      {
        var line, rest := Piece(text, '\n'), AfterPiece(text, '\n');
        ReplayMore(all, ops, text, line, rest);
        if line != "" {
          ops := ops + [ParseLine(line)];
        }
        text := rest;
      }
      ReplayStep("");
    }

    method Truncate()
      modifies this
      ensures file == ""
    {
      file := "";
    }
  }

  // ---------- histories of one log ----------

  datatype LogCall = Append(r: Record) | Truncate

  function Contents(h: seq<LogCall>): string {
    if h == [] then ""
    else
      match h[|h|-1]
      case Append(r) => Contents(h[..|h|-1]) + Encode(r)
      case Truncate => ""
  }

  /** The records appended since the last truncation. */
  function Logged(h: seq<LogCall>): seq<Record> {
    if h == [] then []
    else
      match h[|h|-1]
      case Append(r) => Logged(h[..|h|-1]) + [r]
      case Truncate => []
  }

  lemma {:induction false} ContentsAreLogged(h: seq<LogCall>)
    ensures Contents(h) == EncodeAll(Logged(h))
  {
    if h != [] && h[|h|-1].Append? {
      var before, r := h[..|h|-1], h[|h|-1].r;
      ContentsAreLogged(before);
      EncodeAllConcat(Logged(before), [r]);
      assert EncodeAll([r]) == Encode(r) + "" == Encode(r);
    }
  }

  /** At any point of any history, the log reads back what it should exactly when all of that is clean. */
  lemma HistoryRoundTrip(h: seq<LogCall>)
    ensures Replay(Contents(h)) == Logged(h) <==> AllClean(Logged(h))
  {
    ContentsAreLogged(h);
    RoundTrip(Logged(h));
  }
}
