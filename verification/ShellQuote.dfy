/** shcmd/src/shcmd.c: {aN} and {saN} in a command slot, against the quoting rules of the shell. */
module ShellQuote {
  import opened Bytes

  const SINGLE: char := '\''
  const DOUBLE: char := '"'
  const BACKSLASH: char := '\\'

  // ---- the quoting rules: section 2.2 and rule 9 of section 2.3 of the POSIX.1-2017 Shell Command Language ----

  /** Where the shell is; `wordStart` says whether a # would open a comment. */
  datatype Mode =
    | Plain(wordStart: bool) | Escape(start: bool)
    | InSingle
    | InDouble | DoubleEscape
    | InBackquote | BackquoteEscape
    | Comment

  /** What the shell makes of a character: one that stands for itself, or one it still has to interpret. A quotation
      makes a word even if it is empty. */
  datatype Token = Literal(c: char) | Active(c: char) | Word

  predicate Separates(c: char) { c in " \t\n;&|()<>" }

  function Lex1(m: Mode, c: char): (seq<Token>, Mode) {
    match m
    case Plain(start) =>
      if c == SINGLE then ([Word], InSingle)
      else if c == DOUBLE then ([Word], InDouble)
      else if c == BACKSLASH then ([], Escape(start))
      else if c == '`' then ([Active(c)], InBackquote)
      else if c == '#' && start then ([], Comment)
      else ([Active(c)], Plain(Separates(c)))
    case Escape(start) => if c == '\n' then ([], Plain(start)) else ([Literal(c)], Plain(false))
    case InSingle => if c == SINGLE then ([], Plain(false)) else ([Literal(c)], InSingle)
    case InDouble =>
      if c == DOUBLE then ([], Plain(false))
      else if c == BACKSLASH then ([], DoubleEscape)
      else if c in "$`" then ([Active(c)], InDouble)
      else ([Literal(c)], InDouble)
    case DoubleEscape =>
      if c == '\n' then ([], InDouble)
      else if c in "$`\"\\" then ([Literal(c)], InDouble)
      else ([Literal(BACKSLASH), Literal(c)], InDouble)
    case InBackquote =>
      if c == '`' then ([Active(c)], Plain(false))
      else if c == BACKSLASH then ([Active(c)], BackquoteEscape)
      else ([Active(c)], InBackquote)
    case BackquoteEscape => ([Active(c)], InBackquote)
    case Comment => if c == '\n' then ([Active(c)], Plain(true)) else ([], Comment)
  }

  function Lex(m: Mode, s: string): (seq<Token>, Mode)
    decreases |s|
  {
    if s == [] then ([], m)
    else
      var first := Lex1(m, s[0]);
      var rest := Lex(first.1, s[1..]);
      (first.0 + rest.0, rest.1)
  }

  lemma {:induction false} LexAppend(m: Mode, a: string, b: string)
    ensures Lex(m, a + b) == (Lex(m, a).0 + Lex(Lex(m, a).1, b).0, Lex(Lex(m, a).1, b).1)
    decreases |a|
  {
    hide Lex1;
    if a == [] {
      assert a + b == b;
      assert Lex(m, a).0 + Lex(m, b).0 == Lex(m, b).0;
    } else {
      var first := Lex1(m, a[0]);
      assert (a + b)[1..] == a[1..] + b;
      LexAppend(first.1, a[1..], b);
      var x, y := Lex(first.1, a[1..]), Lex(Lex(m, a).1, b);
      assert first.0 + (x.0 + y.0) == (first.0 + x.0) + y.0;
    }
  }

  // ---- quoting a value ----

  function QuoteChar(c: char): string {
    if c == SINGLE then "'\\''" else [c]
  }

  function QuoteBody(v: string): string {
    if v == [] then [] else QuoteChar(v[0]) + QuoteBody(v[1..])
  }

  function Quote(v: string): string {
    [SINGLE] + QuoteBody(v) + [SINGLE]
  }

  /** The text of a run of tokens, if nothing in it is left to interpret. */
  function TextOf(tokens: seq<Token>): Option<string> {
    if tokens == [] then Some([])
    else
      var rest := TextOf(tokens[1..]);
      if tokens[0].Active? || rest == None then None
      else if tokens[0].Word? then rest
      else Some([tokens[0].c] + rest.value)
  }

  /** What the shell sees of a quoted value. */
  function ValueTokens(v: string): seq<Token> {
    if v == [] then [Word] else [Word] + BodyTokens(v)
  }

  function BodyTokens(v: string): seq<Token> {
    if v == [] then []
    else CharTokens(v[0]) + BodyTokens(v[1..])
  }

  function CharTokens(c: char): seq<Token> {
    if c == SINGLE then [Literal(SINGLE), Word] else [Literal(c)]
  }

  lemma {:induction false} BodyText(v: string)
    ensures TextOf(BodyTokens(v)) == Some(v)
    decreases |v|
  {
    if v != [] {
      BodyText(v[1..]);
      var t := BodyTokens(v[1..]);
      if v[0] == SINGLE {
        assert v == [SINGLE] + v[1..];
        assert BodyTokens(v) == [Literal(SINGLE)] + ([Word] + t);
        assert ([Word] + t)[1..] == t;
        assert BodyTokens(v)[1..] == [Word] + t;
      } else {
        assert BodyTokens(v)[1..] == t;
      }
      assert v == [v[0]] + v[1..];
    }
  }

  /** The value comes through unchanged, and as one word even if it is empty. */
  lemma ValueText(v: string)
    ensures TextOf(ValueTokens(v)) == Some(v) && Word in ValueTokens(v)
  {
    BodyText(v);
    assert v != [] ==> ValueTokens(v)[1..] == BodyTokens(v);
    assert ValueTokens(v)[0] == Word;
    assert [Word][1..] == [];
  }

  lemma {:induction false} LexBody(v: string, rest: string)
    ensures Lex(InSingle, QuoteBody(v) + rest) == (BodyTokens(v) + Lex(InSingle, rest).0, Lex(InSingle, rest).1)
    decreases |v|
  {
    hide Lex, Lex1, QuoteChar, CharTokens;
    if v == [] {
      assert QuoteBody(v) + rest == rest;
      assert BodyTokens(v) + Lex(InSingle, rest).0 == Lex(InSingle, rest).0;
    } else {
      var more := QuoteBody(v[1..]) + rest;
      LexBody(v[1..], rest);
      assert QuoteBody(v) + rest == QuoteChar(v[0]) + more;
      LexAppend(InSingle, QuoteChar(v[0]), more);
      LexQuoteChar(v[0]);
      var c := CharTokens(v[0]);
      assert c + (BodyTokens(v[1..]) + Lex(InSingle, rest).0) == BodyTokens(v) + Lex(InSingle, rest).0;
    }
  }

  lemma Lex2(m: Mode, c: char)
    ensures Lex(m, [c]) == Lex1(m, c)
  {
    assert [c][1..] == [];
    assert Lex1(m, c).0 + [] == Lex1(m, c).0;
  }

  lemma LexQuoteChar(c: char)
    ensures Lex(InSingle, QuoteChar(c)) == (CharTokens(c), InSingle)
  {
    if c == SINGLE {
      assert QuoteChar(c) == [SINGLE] + ([BACKSLASH] + ([SINGLE] + [SINGLE]));
      LexAppend(InSingle, [SINGLE], [BACKSLASH] + ([SINGLE] + [SINGLE]));
      LexAppend(Plain(false), [BACKSLASH], [SINGLE] + [SINGLE]);
      LexAppend(Escape(false), [SINGLE], [SINGLE]);
      Lex2(InSingle, SINGLE);
      Lex2(Plain(false), BACKSLASH);
      Lex2(Escape(false), SINGLE);
      Lex2(Plain(false), SINGLE);
      var none: seq<Token> := [];
      assert none + (none + ([Literal(SINGLE)] + [Word])) == CharTokens(c);
    } else {
      Lex2(InSingle, c);
    }
  }

  /** Outside quotes, the shell reads a quoted value as exactly that value, whatever it is, and is outside quotes
      again. */
  lemma QuoteReadsValue(start: bool, v: string)
    ensures Lex(Plain(start), Quote(v)) == (ValueTokens(v), Plain(false))
  {
    var q := Quote(v);
    assert q[1..] == QuoteBody(v) + [SINGLE];
    LexBody(v, [SINGLE]);
    Lex2(InSingle, SINGLE);
    assert BodyTokens(v) + [] == BodyTokens(v);
    assert [Word] + BodyTokens(v) == ValueTokens(v);
  }

  // ---- substitution in a slot ----

  predicate IsDigit(c: char) { '0' <= c <= '9' }

  predicate QuotedAt(s: string) { |s| >= 4 && s[..3] == "{sa" && IsDigit(s[3]) }

  predicate RawAt(s: string) { |s| >= 3 && s[..2] == "{a" && IsDigit(s[2]) }

  /** The number in a placeholder, from 0; {a0} and {sa0} name nothing. */
  function Index(c: char): int
    requires IsDigit(c)
  {
    c as int - '1' as int
  }

  datatype Piece = Quoted(i: nat) | Raw(i: nat) | Other(c: char)

  /** What the slot starts with, and how long that is. The closing brace is skipped, not checked. */
  function NextPiece(s: string): (Piece, nat)
    requires s != []
  {
    if QuotedAt(s) && Index(s[3]) >= 0 then (Quoted(Index(s[3])), 5)
    else if !QuotedAt(s) && RawAt(s) && Index(s[2]) >= 0 then (Raw(Index(s[2])), 4)
    else (Other(s[0]), 1)
  }

  /** {sa1} is the first value, {sa9} the ninth, each as one quoted word; {a1} to {a9} the same values as they are. */
  lemma PlaceholderNamesValue(k: nat, rest: string, extra: seq<string>)
    requires 1 <= k <= 9
    ensures var digit := "123456789"[k - 1];
            && Subst("{sa" + [digit] + "}" + rest, extra) ==
                 (if k <= |extra| then After("'" + QuoteBody(extra[k - 1]) + "'", Subst(rest, extra)) else Missing)
            && Subst("{a" + [digit] + "}" + rest, extra) ==
                 (if k <= |extra| then After(extra[k - 1], Subst(rest, extra)) else Missing)
  {
    var digit := "123456789"[k - 1];
    assert digit as int == '0' as int + k;
    var s, r := "{sa" + [digit] + "}" + rest, "{a" + [digit] + "}" + rest;
    assert s[..3] == "{sa" && s[3] == digit && s[5..] == rest;
    assert r[..2] == "{a" && r[2] == digit && r[4..] == rest && r[..3] != "{sa";
    assert NextPiece(s) == (Quoted(k - 1), 5) && NextPiece(r) == (Raw(k - 1), 4);
  }

  /** No placeholder is cut off by the end of the slot. */
  predicate Closed(s: string)
    decreases |s|
  {
    s == [] || (NextPiece(s).1 <= |s| && Closed(s[NextPiece(s).1..]))
  }

  /** The substituted slot; or a placeholder names a value the caller did not give; or a placeholder is cut off by
      the end of the slot and the loop steps over the terminating NUL. */
  datatype Outcome = Text(text: string) | Missing | RunsOff

  function Subst(s: string, extra: seq<string>): Outcome
    decreases |s|
  {
    if s == [] then Text([])
    else
      var (p, n) := NextPiece(s);
      if !p.Other? && p.i >= |extra| then Missing
      else if n > |s| then RunsOff
      else After(Rendered(p, extra), Subst(s[n..], extra))
  }

  /** Every placeholder, up to one that is cut off, names a value that was given. */
  predicate AllGiven(s: string, extra: seq<string>)
    decreases |s|
  {
    s == [] ||
    var (p, n) := NextPiece(s);
    (p.Other? || p.i < |extra|) && (n <= |s| ==> AllGiven(s[n..], extra))
  }

  /** Which of the three it is. */
  lemma {:induction false} OutcomeExactly(s: string, extra: seq<string>)
    ensures Subst(s, extra).Missing? <==> !AllGiven(s, extra)
    ensures Subst(s, extra).RunsOff? <==> AllGiven(s, extra) && !Closed(s)
    ensures Subst(s, extra).Text? <==> AllGiven(s, extra) && Closed(s)
    decreases |s|
  {
    if s != [] {
      var (p, n) := NextPiece(s);
      if n <= |s| {
        OutcomeExactly(s[n..], extra);
      }
    }
  }

  function Rendered(p: Piece, extra: seq<string>): string
    requires !p.Other? ==> p.i < |extra|
  {
    match p
    case Quoted(i) => Quote(extra[i])
    case Raw(i) => extra[i]
    case Other(c) => [c]
  }

  function After(out: string, rest: Outcome): Outcome {
    if rest.Text? then Text(out + rest.text) else rest
  }

  lemma AfterNothing(r: Outcome)
    ensures After([], r) == r
  {
    if r.Text? {
      assert [] + r.text == r.text;
    }
  }

  lemma SubstEnd(extra: seq<string>)
    ensures Subst([], extra) == Text([])
  {
  }

  /** The substitution loop of handle_client on one slot. */
  method Substitute(src: string, extra: seq<string>) returns (r: Outcome)
    ensures r == Subst(src, extra)
  {
    hide Subst, NextPiece, Rendered, Quote;
    var out: string := [];
    var p := 0;
    AfterNothing(Subst(src, extra));
    assert src[0..] == src;
    while p < |src|
      invariant 0 <= p <= |src|
      invariant Subst(src, extra) == After(out, Subst(src[p..], extra))
    {
      SubstStep(src, p, extra);
      var isQuoted, idx, skip := false, -1, 0;
      if p + 3 < |src| && src[p] == '{' && src[p + 1] == 's' && src[p + 2] == 'a' && IsDigit(src[p + 3]) {
        isQuoted, idx, skip := true, Index(src[p + 3]), 5;
      } else if p + 2 < |src| && src[p] == '{' && src[p + 1] == 'a' && IsDigit(src[p + 2]) {
        idx, skip := Index(src[p + 2]), 4;
      }
      PieceAt(src, p);
      ghost var piece := if idx < 0 then Other(src[p]) else if isQuoted then Quoted(idx) else Raw(idx);
      assert NextPiece(src[p..]) == (piece, if idx < 0 then 1 else skip);
      RenderedIs(piece, extra);
      if 0 <= idx < |extra| {
        var text := extra[idx];
        if isQuoted {
          text := QuoteValue(text);
        }
        if p + skip > |src| { return RunsOff; }
        AfterAfter(out, text, Subst(src[p + skip..], extra));
        out := out + text;
        p := p + skip;
      } else if idx >= 0 {
        return Missing;
      } else {
        AfterAfter(out, [src[p]], Subst(src[p + 1..], extra));
        out := out + [src[p]];
        p := p + 1;
      }
    }
    SubstEnd(extra);
    assert src[p..] == [] && out + [] == out;
    r := Text(out);
  }

  /** What the cursor sees. */
  lemma PieceAt(src: string, p: nat)
    requires p < |src|
    ensures NextPiece(src[p..]) ==
            if p + 3 < |src| && src[p] == '{' && src[p + 1] == 's' && src[p + 2] == 'a' && IsDigit(src[p + 3]) then
              if src[p + 3] == '0' then (Other(src[p]), 1) else (Quoted(Index(src[p + 3])), 5)
            else if p + 2 < |src| && src[p] == '{' && src[p + 1] == 'a' && IsDigit(src[p + 2]) then
              if src[p + 2] == '0' then (Other(src[p]), 1) else (Raw(Index(src[p + 2])), 4)
            else (Other(src[p]), 1)
  {
    var s := src[p..];
    assert |s| >= 4 ==> s[..3] == [src[p], src[p + 1], src[p + 2]] && s[3] == src[p + 3];
    assert |s| >= 3 ==> s[..2] == [src[p], src[p + 1]] && s[2] == src[p + 2];
  }

  lemma RenderedIs(p: Piece, extra: seq<string>)
    ensures p.Other? ==> Rendered(p, extra) == [p.c]
    ensures p.Quoted? && p.i < |extra| ==> Rendered(p, extra) == Quote(extra[p.i])
    ensures p.Raw? && p.i < |extra| ==> Rendered(p, extra) == extra[p.i]
  {
  }

  /** The inner quoting loop. */
  method QuoteValue(v: string) returns (q: string)
    ensures q == Quote(v)
  {
    q := [SINGLE];
    for i := 0 to |v|
      invariant q + QuoteBody(v[i..]) == [SINGLE] + QuoteBody(v)
    {
      assert v[i..][1..] == v[i + 1..];
      if v[i] == SINGLE {
        q := q + "'\\''";
      } else {
        q := q + [v[i]];
      }
    }
    q := q + [SINGLE];
  }

  lemma SubstStep(src: string, p: nat, extra: seq<string>)
    requires p < |src|
    ensures var (piece, n) := NextPiece(src[p..]);
            Subst(src[p..], extra) ==
              if !piece.Other? && piece.i >= |extra| then Missing
              else if p + n > |src| then RunsOff
              else After(Rendered(piece, extra), Subst(src[p + n..], extra))
  {
    hide NextPiece, Rendered;
    var n := NextPiece(src[p..]).1;
    if p + n <= |src| {
      assert src[p..][n..] == src[p + n..];
    }
  }

  lemma AfterAfter(a: string, b: string, r: Outcome)
    ensures After(a, After(b, r)) == After(a + b, r)
  {
    if r.Text? {
      assert a + (b + r.text) == (a + b) + r.text;
    }
  }

  // ---- the script around the values ----

  /** How the shell reads a slot whose {saN} stand for whole words: the template, not the substituted text, decides. */
  function LexTemplate(m: Mode, s: string, extra: seq<string>): (seq<Token>, Mode)
    requires Closed(s)
    decreases |s|
  {
    if s == [] then ([], m)
    else
      var (p, n) := NextPiece(s);
      if !p.Other? && p.i >= |extra| then ([], m)
      else
        var (here, m1) := if p.Quoted? then (ValueTokens(extra[p.i]), Plain(false)) else Lex(m, Rendered(p, extra));
        var (rest, m2) := LexTemplate(m1, s[n..], extra);
        (here + rest, m2)
  }

  /** Every {saN} stands outside quotes, comments and backquotes. */
  predicate AllUnquoted(m: Mode, s: string, extra: seq<string>)
    requires Closed(s)
    decreases |s|
  {
    s == [] ||
    var (p, n) := NextPiece(s);
    if !p.Other? && p.i >= |extra| then true
    else if p.Quoted? then m.Plain? && AllUnquoted(Plain(false), s[n..], extra)
    else AllUnquoted(Lex(m, Rendered(p, extra)).1, s[n..], extra)
  }

  /** The substituted script is read as the template with each {saN} replaced by its value as one inert word. */
  lemma {:induction false} SubstitutionIsInert(m: Mode, s: string, extra: seq<string>)
    requires Closed(s) && Subst(s, extra).Text? && AllUnquoted(m, s, extra)
    ensures Lex(m, Subst(s, extra).text) == LexTemplate(m, s, extra)
    decreases |s|
  {
    if s != [] {
      var (p, n) := NextPiece(s);
      var text, rest := Rendered(p, extra), Subst(s[n..], extra).text;
      if p.Quoted? {
        QuoteReadsValue(m.wordStart, extra[p.i]);
      }
      SubstitutionIsInert(Lex(m, text).1, s[n..], extra);
      LexAppend(m, text, rest);
    }
  }

  predicate NoRaw(s: string)
    requires Closed(s)
    decreases |s|
  {
    s == [] || (!NextPiece(s).0.Raw? && NoRaw(s[NextPiece(s).1..]))
  }

  /** Forget what the values are, keep everything else the shell acts on. */
  function Acts(tokens: seq<Token>): seq<Token> {
    if tokens == [] then []
    else (if tokens[0].Active? then [tokens[0]] else []) + Acts(tokens[1..])
  }

  lemma {:induction false} ActsAppend(a: seq<Token>, b: seq<Token>)
    ensures Acts(a + b) == Acts(a) + Acts(b)
    decreases |a|
  {
    if a == [] {
      assert a + b == b;
    } else {
      assert (a + b)[1..] == a[1..] + b;
      ActsAppend(a[1..], b);
      var here := if a[0].Active? then [a[0]] else [];
      assert here + (Acts(a[1..]) + Acts(b)) == (here + Acts(a[1..])) + Acts(b);
    }
  }

  lemma {:induction false} TextHasNoActs(tokens: seq<Token>)
    requires TextOf(tokens).Some?
    ensures Acts(tokens) == []
    decreases |tokens|
  {
    if tokens != [] {
      TextHasNoActs(tokens[1..]);
    }
  }

  /** For a slot with only {saN}, no choice of values changes how its template is read. */
  lemma {:induction false} TemplateIgnoresValues(m: Mode, s: string, extra: seq<string>, extra': seq<string>)
    requires Closed(s) && NoRaw(s) && |extra| == |extra'|
    ensures LexTemplate(m, s, extra).1 == LexTemplate(m, s, extra').1
    ensures Acts(LexTemplate(m, s, extra).0) == Acts(LexTemplate(m, s, extra').0)
    ensures AllUnquoted(m, s, extra) == AllUnquoted(m, s, extra')
    decreases |s|
  {
    if s != [] {
      var (p, n) := NextPiece(s);
      if p.Other? || p.i < |extra| {
        var m1 := if p.Quoted? then Plain(false) else Lex(m, Rendered(p, extra)).1;
        TemplateIgnoresValues(m1, s[n..], extra, extra');
        var rest, rest' := LexTemplate(m1, s[n..], extra).0, LexTemplate(m1, s[n..], extra').0;
        if p.Quoted? {
          ValueText(extra[p.i]);
          ValueText(extra'[p.i]);
          TextHasNoActs(ValueTokens(extra[p.i]));
          TextHasNoActs(ValueTokens(extra'[p.i]));
          ActsAppend(ValueTokens(extra[p.i]), rest);
          ActsAppend(ValueTokens(extra'[p.i]), rest');
        } else {
          ActsAppend(Lex(m, Rendered(p, extra)).0, rest);
          ActsAppend(Lex(m, Rendered(p, extra')).0, rest');
        }
      }
    }
  }

  lemma {:induction false} SubstIgnoresValues(s: string, extra: seq<string>, extra': seq<string>)
    requires |extra| == |extra'|
    ensures Subst(s, extra).Text? <==> Subst(s, extra').Text?
    decreases |s|
  {
    if s != [] && NextPiece(s).1 <= |s| {
      SubstIgnoresValues(s[NextPiece(s).1..], extra, extra');
    }
  }

  /** For a slot with only {saN}, all unquoted, no choice of values changes what the shell has to interpret in the
      substituted script, or where it ends up. */
  lemma ValuesCannotChangeTheScript(m: Mode, s: string, extra: seq<string>, extra': seq<string>)
    requires Closed(s) && NoRaw(s) && |extra| == |extra'|
    requires Subst(s, extra).Text? && AllUnquoted(m, s, extra)
    ensures Subst(s, extra').Text?
    ensures Acts(Lex(m, Subst(s, extra).text).0) == Acts(Lex(m, Subst(s, extra').text).0)
    ensures Lex(m, Subst(s, extra).text).1 == Lex(m, Subst(s, extra').text).1
  {
    hide Acts, Lex, LexTemplate, AllUnquoted, Subst, NoRaw, Closed;
    SubstIgnoresValues(s, extra, extra');
    TemplateIgnoresValues(m, s, extra, extra');
    SubstitutionIsInert(m, s, extra);
    SubstitutionIsInert(m, s, extra');
  }

  // ---- where quoting works ----

  ghost predicate ReadsEveryValue(m: Mode) {
    forall v :: TextOf(Lex(m, Quote(v)).0) == Some(v) && Lex(m, Quote(v)).1 == Plain(false)
  }

  /** Exactly outside quotes. */
  lemma WorksExactlyUnquoted(m: Mode)
    ensures ReadsEveryValue(m) <==> m.Plain?
  {
    if m.Plain? {
      ReadsUnquoted(m.wordStart);
    } else {
      FailsElsewhere(m);
    }
  }

  lemma ReadsUnquoted(start: bool)
    ensures ReadsEveryValue(Plain(start))
  {
    hide Lex, Quote, TextOf;
    forall v ensures TextOf(Lex(Plain(start), Quote(v)).0) == Some(v) && Lex(Plain(start), Quote(v)).1 == Plain(false) {
      QuoteReadsValue(start, v);
      ValueText(v);
    }
  }

  /** Everywhere else, the empty value or a # shows it. */
  lemma FailsElsewhere(m: Mode)
    requires !m.Plain?
    ensures !ReadsEveryValue(m)
  {
    assert Quote([]) == "''" && "''"[1..] == "'" && "'"[1..] == "";
    assert Quote("#") == "'#'" && "'#'"[1..] == "#'" && "#'"[1..] == "'";
  }
}
