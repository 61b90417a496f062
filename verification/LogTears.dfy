/**
 Logs that end inside a line: what a cut line is read as, and what the next append makes of it.

 A crash can stop the writing of a line after any of its bytes, and a restart appends to the file as
 it finds it.
 */
module LogTears {
  import opened Collections
  import opened TextLines
  import opened WalLog

  // ---------- complete lines and the bytes after them ----------

  /** Nothing stands after the last line feed. */
  predicate Closed(f: string) {
    f == "" || f[|f|-1] == '\n'
  }

  /** The bytes after the last line feed. */
  function Unfinished(f: string): (t: string)
    ensures |t| <= |f|
  {
    if Closed(f) then "" else Unfinished(f[..|f|-1]) + [f[|f|-1]]
  }

  function Complete(f: string): string {
    f[..|f| - |Unfinished(f)|]
  }

  lemma {:induction false} UnfinishedIs(f: string)
    ensures f[|f|-|Unfinished(f)|..] == Unfinished(f) && '\n' !in Unfinished(f)
    ensures Unfinished(f) == "" <==> Closed(f)
  {
    if !Closed(f) {
      var m := |f| - 1;
      UnfinishedIs(f[..m]);
      assert Unfinished(f) == Unfinished(f[..m]) + [f[m]];
    }
  }

  lemma {:induction false} CompleteIs(f: string)
    ensures Closed(Complete(f))
  {
    if !Closed(f) {
      CompleteIs(f[..|f|-1]);
      assert Complete(f) == Complete(f[..|f|-1]);
    }
  }

  lemma Split(f: string)
    ensures f == Complete(f) + Unfinished(f) && Closed(Complete(f))
    ensures '\n' !in Unfinished(f) && (Unfinished(f) == "" <==> Closed(f))
  {
    UnfinishedIs(f);
    CompleteIs(f);
  }

  lemma ReplayLine(line: string, rest: string)
    requires '\n' !in line
    ensures Replay(line + "\n" + rest) == ParseOne(line) + Replay(rest)
  {
    PiecesCons(line, '\n', rest);
    var ps := Pieces(line + "\n" + rest, '\n');
    assert ps[0] == line && ps[1..] == Pieces(rest, '\n');
  }

  lemma {:induction false} ReplayClosed(f: string, x: string)
    requires Closed(f)
    ensures Replay(f + x) == Replay(f) + Replay(x)
    decreases |f|
  {
    if f == "" {
      ReplayStep("");
      assert f + x == x;
    } else {
      var line, rest := CutFirst(f, '\n');
      ReplayClosed(rest, x);
      ReplayLine(line, rest);
      ReplayLine(line, rest + x);
      Assoc(line + "\n", rest, x);
      Assoc(ParseOne(line), Replay(rest), Replay(x));
    }
  }

  lemma ReplayUnfinished(line: string)
    requires '\n' !in line
    ensures Replay(line) == ParseOne(line)
  {
    if line == "" {
      ReplayStep("");
    } else {
      ReplayOne(line);
    }
  }

  /** Text after an unfinished line continues that line. */
  lemma ReplaySplit(f: string, x: string)
    ensures Replay(f) == Replay(Complete(f)) + ParseOne(Unfinished(f))
    ensures Replay(f + x) == Replay(Complete(f)) + Replay(Unfinished(f) + x)
  {
    Split(f);
    ReplayClosed(Complete(f), Unfinished(f));
    ReplayUnfinished(Unfinished(f));
    ReplayClosed(Complete(f), Unfinished(f) + x);
    Assoc(Complete(f), Unfinished(f), x);
  }

  lemma JoinedText(a: string, t: string, l: string, end: string, rest: string)
    ensures a + t + (l + end) + rest == a + (t + l + end + rest)
  {
  }

  lemma JoinedLine(a: string, line: string, rest: string)
    requires Closed(a) && '\n' !in line && line != ""
    ensures Replay(a + (line + "\n" + rest)) == Replay(a) + [ParseLine(line)] + Replay(rest)
  {
    ReplayClosed(a, line + "\n" + rest);
    ReplayLine(line, rest);
    Assoc(Replay(a), [ParseLine(line)], Replay(rest));
  }

  /** A line appended to any file is one line with the bytes that were left unfinished. */
  lemma AppendJoins(f: string, r: Record, rest: string)
    requires Clean(r)
    ensures Replay(f + Encode(r) + rest) ==
            Replay(Complete(f)) + [ParseLine(Unfinished(f) + Line(r))] + Replay(rest)
  {
    var a, t, l := Complete(f), Unfinished(f), Line(r);
    Split(f);
    ParseLineOfClean(r);
    JoinedText(a, t, l, "\n", rest);
    JoinedLine(a, t + l, rest);
  }

  // ---------- the joined line ----------

  predicate Blank(t: string) {
    forall i :: 0 <= i < |t| ==> IsSpace(t[i])
  }

  /** How many bytes are not spaces. */
  function Letters(s: string): nat {
    Others(s, IsSpace)
  }

  lemma {:induction false} NoLettersIsBlank(t: string)
    requires Letters(t) == 0
    ensures Blank(t)
  {
    if t != "" {
      NoLettersIsBlank(t[1..]);
      assert t == [t[0]] + t[1..];
    }
  }

  lemma {:induction false} SkipKeepsLetters(s: string)
    ensures Letters(SkipSpaces(s)) == Letters(s)
  {
    if s != "" && IsSpace(s[0]) {
      SkipKeepsLetters(s[1..]);
    }
  }

  /** Reading a line drops spaces only. */
  lemma ParseKeepsLetters(line: string)
    ensures var x := ParseLine(line); Letters(x.op) + Letters(x.key) + Letters(x.value) == Letters(line)
  {
    var s := SkipSpaces(line);
    var t := s[|Token(s)|..];
    var u := SkipSpaces(t);
    var v := u[|Token(u)|..];
    SkipKeepsLetters(line);
    assert s == Token(s) + t;
    OthersConcat(Token(s), t, IsSpace);
    SkipKeepsLetters(t);
    assert u == Token(u) + v;
    OthersConcat(Token(u), v, IsSpace);
  }

  lemma {:induction false} SkipBlank(t: string, s: string)
    requires Blank(t)
    ensures SkipSpaces(t + s) == SkipSpaces(s)
  {
    if t == "" {
      assert t + s == s;
    } else {
      assert (t + s)[1..] == t[1..] + s;
      SkipBlank(t[1..], s);
    }
  }

  /** A line with bytes in front of it still reads as its record exactly when those bytes are blank. */
  lemma JoinedReadsIff(t: string, r: Record)
    requires Clean(r)
    ensures ParseLine(t + Line(r)) == r <==> Blank(t)
  {
    ParseLineOfClean(r);
    if Blank(t) {
      SkipBlank(t, Line(r));
    }
    if ParseLine(t + Line(r)) == r {
      ParseKeepsLetters(Line(r));
      ParseKeepsLetters(t + Line(r));
      OthersConcat(t, Line(r), IsSpace);
      NoLettersIsBlank(t);
    }
  }

  // ---------- which bytes separate words ----------

  /** Not empty, and none of the six bytes that separate words: space, tab, line feed, 11, 12 and carriage return. */
  predicate IsWord(t: string) {
    t != "" && forall i :: 0 <= i < |t| ==> t[i] !in [' ', '\t', '\n', 11 as char, 12 as char, '\r']
  }

  predicate IsGap(t: string) {
    forall i :: 0 <= i < |t| ==> t[i] in [' ', '\t', '\n', 11 as char, 12 as char, '\r']
  }

  lemma WordsAndGaps(t: string)
    ensures IsWord(t) <==> t != "" && NoSpaces(t)
    ensures IsGap(t) <==> Blank(t)
  {
  }

  /** Any line of two words or more: gaps before the words are passed over, and of the rest one leading space. */
  lemma ParseWords(g: string, op: string, h: string, key: string, rest: string)
    requires IsGap(g) && IsWord(op) && IsGap(h) && h != "" && IsWord(key)
    requires rest == "" || IsGap(rest[..1])
    ensures ParseLine(g + (op + (h + (key + rest)))) ==
            Record(op, key, if rest != "" && rest[0] == ' ' then rest[1..] else rest)
  {
    WordsAndGaps(g);
    WordsAndGaps(h);
    WordsAndGaps(op);
    WordsAndGaps(key);
    var u := key + rest;
    assert rest != "" ==> IsSpace(rest[0]) by { assert rest != "" ==> rest[..1][0] == rest[0]; }
    assert IsSpace(h[0]) && (h + u)[0] == h[0];
    SkipBlank(g, op + (h + u));
    SkipNone(op + (h + u));
    TokenOf(op, h + u);
    assert (op + (h + u))[|op|..] == h + u;
    SkipBlank(h, u);
    SkipNone(u);
    TokenOf(key, rest);
    assert u[|key|..] == rest;
  }

  /** A line of one word gives an operation alone, and a line of none the empty record. */
  lemma ParseShort(g: string, op: string, h: string)
    requires IsGap(g) && (op == "" || IsWord(op)) && IsGap(h)
    ensures ParseLine(g + (op + h)) == Record(op, "", "")
  {
    WordsAndGaps(g);
    WordsAndGaps(h);
    WordsAndGaps(op);
    SkipBlank(h, "");
    assert h + "" == h;
    SkipBlank(g, op + h);
    if op == "" {
      assert op + h == h;
    } else {
      SkipNone(op + h);
      assert h != "" ==> IsSpace(h[0]);
      TokenOf(op, h);
      assert (op + h)[|op|..] == h;
    }
  }

  lemma EmptyFirstLine(g: string)
    ensures Replay("\n" + g) == Replay(g)
  {
    ReplayLine("", g);
    assert "" + "\n" + g == "\n" + g;
  }

  /** An empty line in a file gives nothing. */
  lemma EmptyLineGivesNothing(f: string, g: string)
    requires Closed(f)
    ensures Replay(f + ("\n" + g)) == Replay(f) + Replay(g)
  {
    EmptyFirstLine(g);
    ReplayClosed(f, "\n" + g);
  }

  // ---------- when an append is read back ----------

  /** Replay after appending: the first of the records joins what was unfinished. */
  lemma AppendsJoin(f: string, r: Record, rs: seq<Record>)
    requires AllClean([r] + rs)
    ensures Replay(f + EncodeAll([r] + rs)) == Replay(Complete(f)) + [ParseLine(Unfinished(f) + Line(r))] + rs
  {
    assert ([r] + rs)[0] == r;
    forall i | 0 <= i < |rs| ensures Clean(rs[i]) {
      assert ([r] + rs)[i+1] == rs[i];
    }
    EncodeCons(r, rs);
    Assoc(f, Encode(r), EncodeAll(rs));
    AppendJoins(f, r, EncodeAll(rs));
    RoundTrip(rs);
  }

  lemma CleanReadBackIff(f: string, rs: seq<Record>)
    requires AllClean(rs)
    ensures Replay(f + EncodeAll(rs)) == Replay(f) + rs <==> rs == [] || Closed(f)
  {
    if rs == [] {
      assert f + EncodeAll(rs) == f && Replay(f) + rs == Replay(f);
    } else {
      var r, more := rs[0], rs[1..];
      assert rs == [r] + more;
      AppendsJoin(f, r, more);
      ReplayOfSplit(f);
      ParseLineOfClean(r);
      JoinedReads(Replay(Complete(f)), Replay(f), Unfinished(f), r, more);
    }
  }

  /**
   Records appended to a file of any text are read back as themselves, behind what the file gave
   before, if and only if they are clean and the file was empty or ended in a line feed.
   */
  lemma AppendedReadBackIff(f: string, rs: seq<Record>)
    ensures Replay(f + EncodeAll(rs)) == Replay(f) + rs <==> AllClean(rs) && (rs == [] || Closed(f))
  {
    if AllClean(rs) {
      CleanReadBackIff(f, rs);
    } else {
      ReplayIsClean(f + EncodeAll(rs));
      var i :| 0 <= i < |rs| && !Clean(rs[i]);
      assert (Replay(f) + rs)[|Replay(f)| + i] == rs[i];
    }
  }

  lemma ReplayOfSplit(f: string)
    ensures Replay(f) == Replay(Complete(f)) + ParseOne(Unfinished(f))
    ensures Unfinished(f) == "" <==> Closed(f)
  {
    Split(f);
    ReplaySplit(f, "");
  }

  lemma JoinedReads(a: seq<Record>, all: seq<Record>, t: string, r: Record, more: seq<Record>)
    requires all == a + ParseOne(t) && ParseLine(Line(r)) == r
    ensures a + [ParseLine(t + Line(r))] + more == all + ([r] + more) <==> t == ""
  {
    if t == "" {
      assert t + Line(r) == Line(r);
      assert all == a;
      Assoc(a, [r], more);
    }
  }

  /**
   In bytes: a command word and a key, neither empty, appended to a file that is empty or ends in a line feed,
   are read back with their value, behind what the file gave, if and only if neither holds one of the six
   separating bytes and the value no line feed.
   */
  lemma WordsReadBackIff(f: string, op: string, key: string, value: string)
    requires op != "" && key != "" && (f == "" || f[|f|-1] == '\n')
    ensures Replay(f + (op + " " + key + (if value == "" then "" else " " + value) + "\n")) ==
            Replay(f) + [Record(op, key, value)]
            <==> IsWord(op) && IsWord(key) && '\n' !in value
  {
    var r := Record(op, key, value);
    WordsAndGaps(op);
    WordsAndGaps(key);
    assert EncodeAll([r]) == Encode(r) + EncodeAll([r][1..]) == Encode(r);
    assert AllClean([r]) <==> Clean(r) by { assert [r][0] == r; }
    AppendedReadBackIff(f, [r]);
  }

  /** A key with any of the six separating bytes inside is not read back. */
  lemma SeparatorInKeyIsLost(f: string, op: string, a: string, c: char, b: string, value: string)
    requires op != "" && (f == "" || f[|f|-1] == '\n')
    requires c in [' ', '\t', '\n', 11 as char, 12 as char, '\r']
    ensures var key := a + [c] + b;
            Replay(f + (op + " " + key + (if value == "" then "" else " " + value) + "\n")) !=
            Replay(f) + [Record(op, key, value)]
  {
    var key := a + [c] + b;
    assert key[|a|] == c;
    WordsReadBackIff(f, op, key, value);
  }

  /** Where in the replay of the whole file the line begun in front of byte `at` stands. */
  function LineOf(file: string, at: nat): nat
    requires at <= |file|
  {
    |Replay(Complete(file[..at]))|
  }

  /** The line that the bytes of r were appended to, at byte `at` of the file, is read as r. */
  predicate ReadBack(file: string, r: Record, at: nat) {
    at <= |file| && LineOf(file, at) < |Replay(file)| && Replay(file)[LineOf(file, at)] == r
  }

  /**
   Whatever stood in the file and whatever follows, an appended record is read back as itself if and
   only if it is clean and the line it continues was blank.
   */
  lemma ReadBackIff(f: string, r: Record, rest: string)
    ensures ReadBack(f + Encode(r) + rest, r, |f|) <==> Clean(r) && Blank(Unfinished(f))
  {
    var file := f + Encode(r) + rest;
    assert file[..|f|] == f;
    if Clean(r) {
      AppendJoins(f, r, rest);
      JoinedReadsIff(Unfinished(f), r);
    } else {
      ReplayIsClean(file);
    }
  }

  /**
   Appending to a torn file joins the new line to the torn one: where there was one record for the torn
   line there is one record for both, and it is the appended one only if the torn line was blank.
   */
  lemma AppendAfterTear(f: string, r: Record)
    requires Clean(r) && !Closed(f)
    ensures Replay(f) == Replay(Complete(f)) + [ParseLine(Unfinished(f))]
    ensures Replay(f + Encode(r)) == Replay(Complete(f)) + [ParseLine(Unfinished(f) + Line(r))]
    ensures ParseLine(Unfinished(f) + Line(r)) == r <==> Blank(Unfinished(f))
  {
    Split(f);
    ReplaySplit(f, "");
    AppendJoins(f, r, "");
    ReplayStep("");
    assert f + Encode(r) + "" == f + Encode(r);
    JoinedReadsIff(Unfinished(f), r);
  }

  /** A two-byte tear hides the next acknowledged write from replay: its operation is no longer `SET`. */
  lemma TearHidesNextWrite()
    ensures var torn := Encode(Record("SET", "a", "1"))[..2];
            Replay(torn + Encode(Record("SET", "b", "2"))) == [Record("SESET", "b", "2")]
  {
    var torn := Encode(Record("SET", "a", "1"))[..2];
    assert torn + Encode(Record("SET", "b", "2")) == Line(Record("SESET", "b", "2")) + "\n";
    ParseLineOfClean(Record("SESET", "b", "2"));
    ReplayTerminated(Line(Record("SESET", "b", "2")));
  }

  // ---------- the unfinished line as bytes are added ----------

  lemma {:induction false} UnfinishedGrows(f: string, p: string)
    requires '\n' !in p
    ensures Unfinished(f + p) == Unfinished(f) + p
  {
    if p == "" {
      assert f + p == f && Unfinished(f) + p == Unfinished(f);
    } else {
      var m := |p| - 1;
      assert p[m] in p && forall c :: c in p[..m] ==> c in p;
      assert (f + p)[..|f|+m] == f + p[..m];
      UnfinishedGrows(f, p[..m]);
      assert Unfinished(f) + p == Unfinished(f) + p[..m] + [p[m]];
    }
  }

  lemma {:induction false} UnfinishedRestarts(f: string, p: string)
    requires '\n' in p
    ensures Unfinished(f + p) == Unfinished(p)
  {
    var m := |p| - 1;
    assert p == p[..m] + [p[m]] && (f + p)[..|f|+m] == f + p[..m] && (f + p)[|f|+m] == p[m];
    if p[m] != '\n' {
      UnfinishedRestarts(f, p[..m]);
    }
  }

  lemma BlankConcat(a: string, b: string)
    ensures Blank(a + b) <==> Blank(a) && Blank(b)
  {
    assert forall i :: 0 <= i < |a| ==> (a + b)[i] == a[i];
    assert forall i :: 0 <= i < |b| ==> (a + b)[|a|+i] == b[i];
  }

  /** The last line is blank once `more` follows, given whether it was before. */
  predicate BlankAfter(before: bool, more: string) {
    if '\n' in more then Blank(Unfinished(more)) else before && Blank(more)
  }

  lemma BlankAfterIff(f: string, more: string)
    ensures Blank(Unfinished(f + more)) <==> BlankAfter(Blank(Unfinished(f)), more)
  {
    if '\n' in more {
      UnfinishedRestarts(f, more);
    } else {
      UnfinishedGrows(f, more);
      BlankConcat(Unfinished(f), more);
    }
  }

  // ---------- what a cut line is read as ----------

  /** What is left of r when its line is cut after n bytes: parts are lost from the right. */
  function Remnant(r: Record, n: nat): Record
    requires n <= |Line(r)|
  {
    if n <= |r.op| then Record(r.op[..n], "", "")
    else if n <= |r.op| + 1 + |r.key| then Record(r.op, r.key[..n-|r.op|-1], "")
    else Record(r.op, r.key, r.value[..n-|r.op|-|r.key|-2])
  }

  lemma ReadsRemnant(r: Record, n: nat)
    requires Clean(r) && n <= |Line(r)|
    ensures ParseLine(Line(r)[..n]) == Remnant(r, n)
  {
    var tail := Line(r)[..n];
    if n <= |r.op| {
      assert tail == r.op[..n];
      SkipNone(tail);
      TokenOf(tail, "");
      assert tail + "" == tail;
    } else if n <= |r.op| + 1 + |r.key| {
      var m := n - |r.op| - 1;
      assert tail == r.op + " " + r.key[..m] + "";
      ParseParts(r.op, r.key[..m], "");
    } else {
      var m := n - |r.op| - |r.key| - 2;
      assert tail == r.op + " " + r.key + (" " + r.value[..m]);
      ParseParts(r.op, r.key, " " + r.value[..m]);
    }
  }

  predicate Writes(r: Record) {
    r.op == "SET" || r.op == "DEL"
  }

  /**
   What a cut of a write does: it writes at all from three bytes on, it hits another key exactly while
   bytes of the key are missing, and it is the write itself only when whole, or when the key is empty
   and just its space is missing.
   */
  ghost predicate CutActs(r: Record, x: Record, n: nat) {
    && (Writes(x) <==> n >= 3)
    && (Writes(x) ==> x.op == r.op)
    && (x.op == r.op && x.key != r.key <==> 3 <= n < 4 + |r.key| && r.key != "")
    && (x == r <==> n == |Line(r)| || (r.key == "" && n == 3))
  }

  lemma CutActsIff(r: Record, n: nat)
    requires Clean(r) && Writes(r) && n <= |Line(r)|
    ensures CutActs(r, ParseLine(Line(r)[..n]), n)
  {
    ReadsRemnant(r, n);
    assert |r.op| == 3;
    var x := Remnant(r, n);
    assert n < 3 ==> |x.op| < 3;
    assert 3 <= n <= 4 + |r.key| ==> |x.key| == if n == 3 then 0 else n - 4;
    assert n > 4 + |r.key| ==> x.key == r.key && |x.value| == n - |r.key| - 5;
  }

  /** n bytes of a clean write leave the last line blank exactly before its first byte or after its line feed. */
  lemma CrashTearsIff(before: bool, r: Record, n: nat)
    requires Clean(r) && Writes(r) && n <= |Encode(r)|
    ensures BlankAfter(before, Encode(r)[..n]) <==> (n == 0 && before) || n == |Encode(r)|
  {
    var left := Encode(r)[..n];
    ParseLineOfClean(r);
    if n == |Encode(r)| {
      assert left == Encode(r) && left[n-1] == '\n';
    } else {
      assert left == Line(r)[..n];
      assert forall c :: c in left ==> c in Line(r);
      assert n > 0 ==> left[0] == r.op[0];
    }
  }

  /** A cut can turn the deletion of one key into the deletion of another. */
  lemma TornDeleteHitsAnotherKey()
    ensures var file := Encode(Record("DEL", "ab", ""));
            Replay(file[..5]) == [Record("DEL", "a", "")]
  {
    var file := Encode(Record("DEL", "ab", ""));
    assert file == "DEL ab\n" && file[..5] == "DEL" + " " + "a" + "";
    ParseParts("DEL", "a", "");
    PiecesOne("DEL" + " " + "a" + "", '\n');
  }

  // ---------- a file of records cut anywhere ----------
  /**
   What a file of records cut after n bytes gives back. The k records whose lines are complete are read
   in order; the bytes of the cut line add one record if there are any, and that record is what is
   left of record k.
   */
  ghost predicate ReadsTorn(rs: seq<Record>, n: nat, k: nat, tail: string)
    requires n <= |EncodeAll(rs)|
  {
    && k <= |rs| && '\n' !in tail
    && EncodeAll(rs)[..n] == EncodeAll(rs[..k]) + tail
    && (tail == "" ==> Replay(EncodeAll(rs)[..n]) == rs[..k])
    && (tail != "" ==> Replay(EncodeAll(rs)[..n]) == rs[..k] + [ParseLine(tail)])
    && (tail != "" ==> k < |rs| && tail <= Line(rs[k]) && ParseLine(tail) == Remnant(rs[k], |tail|))
  }

  lemma TornFirst(r: Record, rs: seq<Record>, n: nat)
    requires Clean(r) && n <= |Line(r)|
    ensures n <= |EncodeAll([r] + rs)| && ReadsTorn([r] + rs, n, 0, Line(r)[..n])
  {
    var tail := Line(r)[..n];
    var all := [r] + rs;
    assert EncodeAll(all) == Line(r) + ("\n" + EncodeAll(all[1..]));
    assert EncodeAll(all)[..n] == tail == EncodeAll(all[..0]) + tail;
    ParseLineOfClean(r);
    ReadsRemnant(r, n);
    if tail == "" {
      ReplayStep("");
    } else {
      ReplayOne(tail);
    }
  }

  lemma TornRestBytes(r: Record, rs: seq<Record>, m: nat, k: nat, tail: string)
    requires k <= |rs| && m <= |EncodeAll(rs)| && EncodeAll(rs)[..m] == EncodeAll(rs[..k]) + tail
    ensures EncodeAll([r] + rs) == Encode(r) + EncodeAll(rs)
    ensures EncodeAll([r] + rs)[..|Encode(r)| + m] == Encode(r) + EncodeAll(rs)[..m]
    ensures EncodeAll([r] + rs)[..|Encode(r)| + m] == EncodeAll(([r] + rs)[..k+1]) + tail
  {
    EncodeCons(r, rs);
    EncodeCons(r, rs[..k]);
    PrefixCons(r, rs, k);
    CutAfter(Encode(r), EncodeAll(rs), m);
    Assoc(Encode(r), EncodeAll(rs[..k]), tail);
  }

  lemma TornRest(r: Record, rs: seq<Record>, m: nat, k: nat, tail: string)
    requires Clean(r) && m <= |EncodeAll(rs)| && ReadsTorn(rs, m, k, tail)
    ensures |Encode(r)| + m <= |EncodeAll([r] + rs)| && ReadsTorn([r] + rs, |Encode(r)| + m, k + 1, tail)
  {
    TornRestBytes(r, rs, m, k, tail);
    PrefixCons(r, rs, k);
    ReplayCons(r, EncodeAll(rs)[..m]);
    Assoc([r], rs[..k], [ParseLine(tail)]);
  }

  /** Every byte prefix of a file of clean records reads torn in exactly this way. */
  lemma {:induction false} TornTail(rs: seq<Record>, n: nat) returns (k: nat, tail: string)
    requires AllClean(rs) && n <= |EncodeAll(rs)|
    ensures ReadsTorn(rs, n, k, tail)
  {
    if rs == [] {
      k, tail := 0, "";
      ReplayStep("");
    } else {
      var r, rest := rs[0], rs[1..];
      assert rs == [r] + rest;
      EncodeCons(r, rest);
      if n <= |Line(r)| {
        k, tail := 0, Line(r)[..n];
        TornFirst(r, rest, n);
      } else {
        k, tail := TornTail(rest, n - |Encode(r)|);
        TornRest(r, rest, n - |Encode(r)|, k, tail);
        k := k + 1;
      }
    }
  }
}
