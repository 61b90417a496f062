/**
 The tokenizer of inline commands: trim, split at spaces, upper-case the first token.

 Requests that begin with `*` or `$` lose that one byte and are read like the others, as in the code.
 */
module RespTokens {
  import opened Collections
  import opened TextLines

  predicate IsBlank(c: char) {
    c == ' ' || c == '\t' || c == '\r' || c == '\n'
  }

  // ---------- trim ----------

  /** The place of the first character that is not blank, or the length. */
  function FirstKept(s: string): (i: nat)
    ensures i <= |s| && (forall j :: 0 <= j < i ==> IsBlank(s[j])) && (i < |s| ==> !IsBlank(s[i]))
  {
    if s == "" || !IsBlank(s[0]) then 0 else 1 + FirstKept(s[1..])
  }

  /** The place after the last character that is not blank, or 0. */
  function EndKept(s: string): (i: nat)
    ensures i <= |s| && (forall j :: i <= j < |s| ==> IsBlank(s[j])) && (i > 0 ==> !IsBlank(s[i-1]))
  {
    if s == "" || !IsBlank(s[|s|-1]) then |s| else EndKept(s[..|s|-1])
  }

  function Trim(s: string): string {
    if FirstKept(s) == |s| then "" else s[FirstKept(s)..EndKept(s)]
  }

  predicate Bare(t: string) {
    t == "" || (!IsBlank(t[0]) && !IsBlank(t[|t|-1]))
  }

  predicate AllBlank(s: string) {
    forall i :: 0 <= i < |s| ==> IsBlank(s[i])
  }

  lemma TrimIsBare(s: string)
    ensures Bare(Trim(s)) && forall c :: c in Trim(s) ==> c in s
  {
  }

  /** Trimming takes off exactly the blanks around a bare text. */
  lemma TrimOf(a: string, t: string, b: string)
    requires AllBlank(a) && AllBlank(b) && Bare(t)
    ensures Trim(a + t + b) == t
  {
    var s := a + t + b;
    if t == "" {
      assert forall i :: 0 <= i < |s| ==> IsBlank(s[i]);
    } else {
      assert s[|a|] == t[0] && s[|a|+|t|-1] == t[|t|-1];
      assert forall i :: 0 <= i < |a| ==> s[i] == a[i];
      assert forall i :: |a| + |t| <= i < |s| ==> s[i] == b[i-|a|-|t|];
      assert FirstKept(s) == |a| && EndKept(s) == |a| + |t|;
    }
  }

  // ---------- split ----------

  function KeepTokens(pieces: seq<string>): seq<string> {
    if pieces == [] then []
    else Kept(Trim(pieces[0])) + KeepTokens(pieces[1..])
  }

  function Split(s: string): seq<string> {
    KeepTokens(Pieces(s, ' '))
  }

  function Kept(t: string): seq<string> {
    if t == "" then [] else [t]
  }

  lemma SplitStep(s: string)
    ensures s == "" ==> Split(s) == []
    ensures s != "" ==> Split(s) == Kept(Trim(Piece(s, ' '))) + Split(AfterPiece(s, ' '))
  {
    if s != "" {
      var ps := Pieces(s, ' ');
      assert ps[0] == Piece(s, ' ') && ps[1..] == Pieces(AfterPiece(s, ' '), ' ');
    }
  }

  /** One turn of the loop below: what the rest of the text gives is the token before the delimiter and what is left. */
  lemma SplitMore(all: seq<string>, tokens: seq<string>, s: string, token: string, rest: string)
    requires s != "" && token == Trim(Piece(s, ' ')) && rest == AfterPiece(s, ' ')
    requires all == tokens + Split(s)
    ensures |rest| < |s|
    ensures if token == "" then all == tokens + Split(rest) else all == tokens + [token] + Split(rest)
  {
    SplitStep(s);
    Assoc(tokens, Kept(token), Split(rest));
    assert tokens + [] == tokens;
  }

  method SplitTokens(s: string) returns (tokens: seq<string>)
    ensures tokens == Split(s)
  {
    tokens := [];
    ghost var all := Split(s);
    var text := s;
    while text != ""
      invariant all == tokens + Split(text)
      decreases |text|
    {
      var token, rest := Trim(Piece(text, ' ')), AfterPiece(text, ' ');
      SplitMore(all, tokens, text, token, rest);
      if token != "" {
        tokens := tokens + [token];
      }
      text := rest;
    }
    SplitStep("");
  }

  // ---------- upper case ----------

  function UpperChar(c: char): char {
    if 'a' <= c <= 'z' then (c as int - 32) as char else c
  }

  function ToUpper(s: string): (u: string)
    ensures |u| == |s| && forall i :: 0 <= i < |s| ==> u[i] == UpperChar(s[i])
  {
    seq(|s|, i requires 0 <= i < |s| => UpperChar(s[i]))
  }

  predicate IsUpper(s: string) {
    forall i :: 0 <= i < |s| ==> !('a' <= s[i] <= 'z')
  }

  lemma UpperOfUpper(s: string)
    ensures IsUpper(ToUpper(s)) && (IsUpper(s) ==> ToUpper(s) == s)
  {
  }

  method Capitalize(s: string) returns (upper: string)
    ensures upper == ToUpper(s)
  {
    var a := new char[|s|](i requires 0 <= i < |s| => s[i]);
    for i := 0 to |s|
      invariant forall j :: 0 <= j < |s| ==> a[j] == if j < i then UpperChar(s[j]) else s[j]
    {
      a[i] := UpperChar(a[i]);
    }
    upper := a[..];
  }

  // ---------- parse ----------

  datatype Command = Command(name: string, args: seq<string>)

  function FromTokens(tokens: seq<string>): Command {
    if tokens == [] then Command("", []) else Command(ToUpper(tokens[0]), tokens[1..])
  }

  function ParseSimple(raw: string): Command {
    FromTokens(Split(Trim(raw)))
  }

  predicate Marked(s: string) {
    s != "" && (s[0] == '*' || s[0] == '$')
  }

  function Parse(raw: string): Command {
    if Marked(raw) then ParseSimple(raw[1..]) else ParseSimple(raw)
  }

  method ParseSimpleString(raw: string) returns (c: Command)
    ensures c == ParseSimple(raw)
  {
    var tokens := SplitTokens(Trim(raw));
    c := Assemble(tokens);
  }

  method Assemble(tokens: seq<string>) returns (c: Command)
    ensures c == FromTokens(tokens)
  {
    if tokens == [] {
      return Command("", []);
    }
    var name := Capitalize(tokens[0]);
    var args := [];
    for i := 1 to |tokens|
      invariant args == tokens[1..i]
    {
      args := args + [tokens[i]];
    }
    c := Command(name, args);
  }

  method ParseRequest(raw: string) returns (c: Command)
    ensures c == Parse(raw)
  {
    if raw == "" {
      c := Command("", []);
    } else if raw[0] == '*' || raw[0] == '$' {
      c := ParseSimpleString(raw[1..]);
    } else {
      c := ParseSimpleString(raw);
    }
  }

  // ---------- what tokens look like ----------

  /** Not empty, no space inside, no blank at either end. */
  predicate Clean(t: string) {
    t != "" && Bare(t) && ' ' !in t
  }

  predicate AllClean(ts: seq<string>) {
    forall i :: 0 <= i < |ts| ==> Clean(ts[i])
  }

  lemma {:induction false} KeptAreClean(pieces: seq<string>)
    requires forall p :: p in pieces ==> ' ' !in p
    ensures AllClean(KeepTokens(pieces))
  {
    if pieces != [] {
      assert pieces[0] in pieces && forall p :: p in pieces[1..] ==> p in pieces;
      TrimIsBare(pieces[0]);
      KeptAreClean(pieces[1..]);
    }
  }

  lemma UpperIsClean(t: string)
    requires Clean(t)
    ensures Clean(ToUpper(t))
  {
    var u := ToUpper(t);
    assert forall i :: 0 <= i < |t| ==> (UpperChar(t[i]) == ' ' <==> t[i] == ' ');
  }

  /** Every token that parsing returns is clean and the command is upper-case; blank input gives nothing at all. */
  lemma ParsedIsClean(raw: string)
    ensures var c := Parse(raw);
      (c == Command("", []) || (Clean(c.name) && IsUpper(c.name) && AllClean(c.args)))
  {
    var body := if Marked(raw) then raw[1..] else raw;
    PiecesMembers(Trim(body), ' ');
    KeptAreClean(Pieces(Trim(body), ' '));
    var tokens := Split(Trim(body));
    if tokens != [] {
      UpperIsClean(tokens[0]);
      UpperOfUpper(tokens[0]);
    }
  }

  // ---------- round trip ----------

  function Spaces(n: nat): (s: string)
    ensures |s| == n && forall i :: 0 <= i < n ==> s[i] == ' '
  {
    seq(n, i => ' ')
  }

  /** The tokens with gaps[i] + 1 spaces after token i. */
  function Join(ts: seq<string>, gaps: seq<nat>): string
    requires ts != [] && |gaps| == |ts| - 1
  {
    if |ts| == 1 then ts[0] else ts[0] + " " + Spaces(gaps[0]) + Join(ts[1..], gaps[1..])
  }

  lemma SplitOneSpace(s: string)
    ensures Split(" " + s) == Split(s)
  {
    var l := " " + s;
    assert FirstOf(l, ' ') == 0;
    assert Piece(l, ' ') == "" && AfterPiece(l, ' ') == s;
    SplitStep(l);
  }

  lemma SpacesStep(n: nat)
    requires n > 0
    ensures Spaces(n) == " " + Spaces(n - 1)
  {
  }

  lemma {:induction false} SplitSpaces(n: nat, s: string)
    ensures Split(Spaces(n) + s) == Split(s)
  {
    if n == 0 {
      assert Spaces(0) + s == s;
    } else {
      SplitSpaces(n - 1, s);
      SpacesStep(n);
      Assoc(" ", Spaces(n - 1), s);
      SplitOneSpace(Spaces(n - 1) + s);
    }
  }

  lemma SplitCons(t: string, n: nat, s: string)
    requires ' ' !in t
    ensures Split(t + " " + Spaces(n) + s) == Kept(Trim(t)) + Split(s)
  {
    var l := t + " " + Spaces(n) + s;
    assert l == t + [' '] + (Spaces(n) + s);
    FirstIs(t, ' ', Spaces(n) + s);
    SplitStep(l);
    assert Piece(l, ' ') == t && AfterPiece(l, ' ') == Spaces(n) + s;
    SplitSpaces(n, s);
  }

  lemma SplitOne(t: string)
    requires ' ' !in t
    ensures Split(t) == Kept(Trim(t))
  {
    if t != "" {
      PiecesOne(t, ' ');
      assert KeepTokens([t]) == Kept(Trim(t)) + KeepTokens([t][1..]);
    }
  }

  lemma TrimClean(t: string)
    requires Clean(t)
    ensures Trim(t) == t
  {
    TrimOf("", t, "");
    assert "" + t + "" == t;
  }

  lemma {:induction false} SplitJoin(ts: seq<string>, gaps: seq<nat>)
    requires ts != [] && |gaps| == |ts| - 1 && AllClean(ts)
    ensures Split(Join(ts, gaps)) == ts
    ensures Join(ts, gaps) != "" && Bare(Join(ts, gaps)) && Join(ts, gaps)[0] == ts[0][0]
  {
    TrimClean(ts[0]);
    if |ts| == 1 {
      SplitOne(ts[0]);
    } else {
      SplitJoin(ts[1..], gaps[1..]);
      SplitCons(ts[0], gaps[0], Join(ts[1..], gaps[1..]));
    }
  }

  /** u is t with the letters a to z replaced, place by place of the alphabet, and all else kept. */
  ghost predicate IsUpperOf(u: string, t: string) {
    && |u| == |t|
    && (forall i, j :: 0 <= i < |t| && 0 <= j < 26 && t[i] == "abcdefghijklmnopqrstuvwxyz"[j] ==>
          u[i] == "ABCDEFGHIJKLMNOPQRSTUVWXYZ"[j])
    && (forall i :: 0 <= i < |t| && t[i] !in "abcdefghijklmnopqrstuvwxyz" ==> u[i] == t[i])
  }

  lemma LowerAt(j: nat)
    requires j < 26
    ensures "abcdefghijklmnopqrstuvwxyz"[j] as int == 97 + j
  {
  }

  lemma UpperAt(j: nat)
    requires j < 26
    ensures "ABCDEFGHIJKLMNOPQRSTUVWXYZ"[j] as int == 65 + j
  {
  }

  lemma UpperOfLetter(j: nat)
    requires j < 26
    ensures UpperChar("abcdefghijklmnopqrstuvwxyz"[j]) == "ABCDEFGHIJKLMNOPQRSTUVWXYZ"[j]
  {
    LowerAt(j);
    UpperAt(j);
  }

  lemma UpperOfOther(c: char)
    requires c !in "abcdefghijklmnopqrstuvwxyz"
    ensures UpperChar(c) == c
  {
    if 'a' <= c <= 'z' {
      LowerAt(c as int - 97);
    }
  }

  /** Capitals: a letter becomes the one at its place in the other alphabet, and nothing else changes. */
  lemma UpperIs(t: string)
    ensures IsUpperOf(ToUpper(t), t)
  {
    forall i, j | 0 <= i < |t| && 0 <= j < 26 && t[i] == "abcdefghijklmnopqrstuvwxyz"[j]
      ensures ToUpper(t)[i] == "ABCDEFGHIJKLMNOPQRSTUVWXYZ"[j] {
      UpperOfLetter(j);
    }
    forall i | 0 <= i < |t| && t[i] !in "abcdefghijklmnopqrstuvwxyz" ensures ToUpper(t)[i] == t[i] {
      UpperOfOther(t[i]);
    }
  }

  lemma AnyCaseParses(ts: seq<string>, gaps: seq<nat>)
    requires ts != [] && |gaps| == |ts| - 1 && AllClean(ts) && !Marked(ts[0])
    ensures Parse(Join(ts, gaps) + "\r\n") == Command(ToUpper(ts[0]), ts[1..])
  {
    SplitJoin(ts, gaps);
    TrimOf("", Join(ts, gaps), "\r\n");
    assert "" + Join(ts, gaps) + "\r\n" == Join(ts, gaps) + "\r\n";
  }

  /** Clean tokens, joined with any positive numbers of spaces and ended by CR LF, parse back to themselves. */
  lemma TokenRoundTrip(ts: seq<string>, gaps: seq<nat>)
    requires ts != [] && |gaps| == |ts| - 1 && AllClean(ts)
    requires IsUpper(ts[0]) && !Marked(ts[0])
    ensures Parse(Join(ts, gaps) + "\r\n") == Command(ts[0], ts[1..])
  {
    AnyCaseParses(ts, gaps);
    UpperOfUpper(ts[0]);
  }

  /** In characters: not empty, no space inside, and neither end a space, a tab or a line end. */
  predicate IsToken(t: string) {
    t != "" && ' ' !in t && t[0] !in " \t\r\n" && t[|t|-1] !in " \t\r\n"
  }

  lemma TokensAreClean(ts: seq<string>)
    requires forall i :: 0 <= i < |ts| ==> IsToken(ts[i])
    ensures AllClean(ts)
  {
  }

  lemma NotMarked(before: string, line: string, after: string)
    requires forall c :: c in before ==> c in " \t\r\n"
    requires line != "" && line[0] != '*' && line[0] != '$'
    ensures !Marked(before + line + after)
  {
    assert before != "" ==> before[0] in before;
  }

  lemma BlanksAre(t: string)
    requires forall c :: c in t ==> c in " \t\r\n"
    ensures AllBlank(t)
  {
    forall i | 0 <= i < |t| ensures IsBlank(t[i]) {
      assert t[i] in t;
    }
  }

  lemma SplitTrimmed(before: string, line: string, after: string)
    requires AllBlank(before) && AllBlank(after) && Bare(line)
    ensures Split(Trim(before + line + after)) == Split(line)
  {
    TrimOf(before, line, after);
  }

  /**
   Tokens in any case, the first not begun by one of the two type marks, joined with any positive numbers of
   spaces and with any blanks around: the command is the first in capitals, the others are its arguments.
   */
  lemma RequestParses(before: string, ts: seq<string>, gaps: seq<nat>, after: string)
    requires ts != [] && |gaps| == |ts| - 1 && forall i :: 0 <= i < |ts| ==> IsToken(ts[i])
    requires forall c :: c in before || c in after ==> c in " \t\r\n"
    requires ts[0] != "" && ts[0][0] != '*' && ts[0][0] != '$'
    ensures var c := Parse(before + Join(ts, gaps) + after);
            IsUpperOf(c.name, ts[0]) && c.args == ts[1..]
  {
    TokensAreClean(ts);
    BlanksAre(before);
    BlanksAre(after);
    SplitJoin(ts, gaps);
    SplitTrimmed(before, Join(ts, gaps), after);
    NotMarked(before, Join(ts, gaps), after);
    UpperIs(ts[0]);
  }

  // ---------- the mark is lost ----------

  /** A request begun by one of the two type marks is read without that byte, and no other is. */
  lemma MarkIsDropped(raw: string)
    ensures raw != "" && (raw[0] == '*' || raw[0] == '$') ==> Parse(raw) == ParseSimple(raw[1..])
    ensures raw == "" || (raw[0] != '*' && raw[0] != '$') ==> Parse(raw) == ParseSimple(raw)
  {
  }

  predicate Space(c: char) {
    c == ' '
  }

  function Letters(s: string): nat {
    Others(s, Space)
  }

  function Weight(ts: seq<string>): nat {
    if ts == [] then 0 else |ts[0]| + Weight(ts[1..])
  }

  lemma LettersSlice(s: string, i: nat, j: nat)
    requires i <= j <= |s|
    ensures Letters(s[i..j]) <= Letters(s[..j]) <= Letters(s)
  {
    assert s == s[..j] + s[j..] && s[..j] == s[..i] + s[i..j];
    OthersConcat(s[..j], s[j..], Space);
    OthersConcat(s[..i], s[i..j], Space);
  }

  lemma {:induction false} LettersOfWord(t: string)
    ensures Letters(t) <= |t| && (' ' !in t ==> Letters(t) == |t|)
  {
    if t != "" {
      assert forall c :: c in t[1..] ==> c in t;
      LettersOfWord(t[1..]);
    }
  }

  /** Splitting makes no letters. */
  lemma {:induction false} SplitWeighs(s: string)
    ensures Weight(Split(s)) <= Letters(s)
    decreases |s|
  {
    SplitStep(s);
    if s != "" {
      var p, rest := Piece(s, ' '), AfterPiece(s, ' ');
      SplitWeighs(rest);
      PieceWeighs(s);
      WeightStep(Trim(p), Split(rest));
    }
  }

  lemma WeightStep(t: string, ts: seq<string>)
    ensures Weight(Kept(t) + ts) == |t| + Weight(ts)
  {
    if t == "" {
      assert [] + ts == ts;
    } else {
      assert ([t] + ts)[1..] == ts;
    }
  }

  lemma PieceWeighs(s: string)
    requires s != ""
    ensures |Trim(Piece(s, ' '))| + Letters(AfterPiece(s, ' ')) <= Letters(s)
  {
    var p, rest := Piece(s, ' '), AfterPiece(s, ' ');
    LettersOfWord(p);
    assert s == p + s[|p|..];
    OthersConcat(p, s[|p|..], Space);
    if |p| < |s| {
      assert s[|p|..] == [' '] + rest;
    }
  }

  lemma {:induction false} JoinWeighs(ts: seq<string>, gaps: seq<nat>)
    requires ts != [] && |gaps| == |ts| - 1 && AllClean(ts)
    ensures Letters(Join(ts, gaps)) == Weight(ts)
  {
    LettersOfWord(ts[0]);
    if |ts| > 1 {
      JoinWeighs(ts[1..], gaps[1..]);
      OthersConcat(ts[0] + " " + Spaces(gaps[0]), Join(ts[1..], gaps[1..]), Space);
      OthersConcat(ts[0] + " ", Spaces(gaps[0]), Space);
      OthersConcat(ts[0], " ", Space);
      SpacesWeighNothing(gaps[0]);
    }
  }

  lemma {:induction false} SpacesWeighNothing(n: nat)
    ensures Letters(Spaces(n)) == 0
  {
    if n > 0 {
      assert Spaces(n)[1..] == Spaces(n - 1);
      SpacesWeighNothing(n - 1);
    }
  }

  lemma LineEndTrimmed(s: string)
    ensures Letters(Trim(s + "\r\n")) <= Letters(s)
  {
    var l := s + "\r\n";
    assert l[|s|] == '\r' && l[|s|+1] == '\n';
    if Trim(l) != "" {
      var i, j := FirstKept(l), EndKept(l);
      assert j <= |s| && Trim(l) == s[i..j];
      LettersSlice(s, i, j);
    }
  }

  /** A command that begins with a mark loses it and does not come back. */
  lemma MarkedDoesNotReturn(ts: seq<string>, gaps: seq<nat>)
    requires ts != [] && |gaps| == |ts| - 1 && AllClean(ts) && Marked(ts[0])
    ensures Parse(Join(ts, gaps) + "\r\n") != Command(ts[0], ts[1..])
  {
    var line := Join(ts, gaps);
    SplitJoin(ts, gaps);
    JoinWeighs(ts, gaps);
    assert Letters(line) == 1 + Letters(line[1..]);
    assert (line + "\r\n")[1..] == line[1..] + "\r\n";
    LineEndTrimmed(line[1..]);
    SplitWeighs(Trim(line[1..] + "\r\n"));
    var tokens := Split(Trim(line[1..] + "\r\n"));
    assert Weight(tokens) < Weight(ts);
    assert ts == [ts[0]] + ts[1..];
  }

  /**
   Whatever was parsed, writing the tokens out again and parsing gives the same command exactly when the
   command does not begin with `*` or `$`.
   */
  lemma ReparseIff(raw: string, gaps: seq<nat>)
    requires Parse(raw).name != "" && |gaps| == |Parse(raw).args|
    ensures Parse(Join([Parse(raw).name] + Parse(raw).args, gaps) + "\r\n") == Parse(raw)
            <==> Parse(raw).name[0] != '*' && Parse(raw).name[0] != '$'
  {
    var c := Parse(raw);
    var ts := [c.name] + c.args;
    ParsedIsClean(raw);
    assert ts[1..] == c.args;
    if Marked(c.name) {
      MarkedDoesNotReturn(ts, gaps);
    } else {
      TokenRoundTrip(ts, gaps);
    }
  }
}
