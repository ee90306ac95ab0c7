/** The command tokenizer of the console: a quote and escape automaton that cuts a
    line into words, and the printer it inverts. */
module Tokenizer {
  import opened Characters

  /** The local variables of the scanning loop. */
  datatype State = State(args: seq<string>, current: string, inQuotes: bool, quoteChar: char)

  const FRESH := State([], "", false, '\0')

  predicate IsQuote(c: char) {
    c == '"' || c == '\''
  }

  predicate AllSpace(s: string) {
    forall i :: 0 <= i < |s| ==> IsSpace(s[i])
  }

  /** Ends the current word, if there is one. */
  function Flush(st: State): State {
    if st.current == "" then st else st.(args := st.args + [st.current], current := "")
  }

  /** One character that is not the backslash of an escape. */
  function Step(st: State, c: char): State {
    if st.inQuotes then
      if c == st.quoteChar then st.(inQuotes := false) else st.(current := st.current + [c])
    else if IsSpace(c) then Flush(st)
    else if IsQuote(c) then st.(inQuotes := true, quoteChar := c)
    else st.(current := st.current + [c])
  }

  /** A backslash escapes only inside quotes, and only when a character follows it. */
  predicate Escapes(st: State, s: string) {
    st.inQuotes && |s| >= 2 && s[0] != st.quoteChar && s[0] == '\\'
  }

  function Run(st: State, s: string): State
    decreases |s|
  {
    if s == "" then st
    else if Escapes(st, s) then Run(st.(current := st.current + [s[1]]), s[2..])
    else Run(Step(st, s[0]), s[1..])
  }

  function Parse(s: string): seq<string> {
    Flush(Run(FRESH, s)).args
  }

  /** The scanning loop itself, with its index that an escape advances twice. */
  method ParseCmd(input: string) returns (args: seq<string>)
    ensures args == Parse(input)
  {
    args := [];
    var current := "";
    var inQuotes := false;
    var quoteChar := '\0';
    var i := 0;
    while i < |input|
      invariant 0 <= i <= |input|
      invariant Run(State(args, current, inQuotes, quoteChar), input[i..]) == Run(FRESH, input)
    {
      var c := input[i];
      ghost var rest := input[i..];
      assert rest[0] == c && rest[1..] == input[i + 1..];
      if inQuotes {
        if c == quoteChar {
          inQuotes := false;
        } else if c == '\\' && i + 1 < |input| {
          assert rest[1] == input[i + 1] && rest[2..] == input[i + 2..];
          i := i + 1;
          current := current + [input[i]];
        } else {
          current := current + [c];
        }
      } else {
        if IsSpace(c) {
          if current != "" {
            args := args + [current];
            current := "";
          }
        } else if c == '"' || c == '\'' {
          inQuotes := true;
          quoteChar := c;
        } else {
          current := current + [c];
        }
      }
      i := i + 1;
    }
    if current != "" {
      args := args + [current];
    }
  }

  // ----- Words are never empty ------------------------------------------------------------

  lemma {:induction false} RunKeepsWordsNonEmpty(st: State, s: string)
    requires "" !in st.args
    ensures "" !in Run(st, s).args
    decreases |s|
  {
    if s == "" {
    } else if Escapes(st, s) {
      RunKeepsWordsNonEmpty(st.(current := st.current + [s[1]]), s[2..]);
    } else {
      RunKeepsWordsNonEmpty(Step(st, s[0]), s[1..]);
    }
  }

  /** No input makes the tokenizer return an empty word. */
  lemma NoEmptyWord(s: string)
    ensures "" !in Parse(s)
  {
    RunKeepsWordsNonEmpty(FRESH, s);
  }

  // ----- Splitting over whitespace --------------------------------------------------------

  /** Outside quotes nothing is pending, so the automaton can be stopped and restarted. */
  lemma {:induction false} RunConcat(st: State, a: string, b: string)
    requires !Run(st, a).inQuotes
    ensures Run(st, a + b) == Run(Run(st, a), b)
    decreases |a|
  {
    if a == "" {
      assert a + b == b;
    } else if Escapes(st, a) {
      assert (a + b)[2..] == a[2..] + b;
      RunConcat(st.(current := st.current + [a[1]]), a[2..], b);
    } else {
      assert (a + b)[1..] == a[1..] + b;
      RunConcat(Step(st, a[0]), a[1..], b);
    }
  }

  /** `y` is `x` with the words `pre` before it; the quote character matters only inside quotes. */
  predicate Shifted(pre: seq<string>, x: State, y: State) {
    && y.args == pre + x.args
    && y.current == x.current
    && y.inQuotes == x.inQuotes
    && (x.inQuotes ==> y.quoteChar == x.quoteChar)
  }

  lemma {:induction false} RunShifted(pre: seq<string>, x: State, y: State, s: string)
    requires Shifted(pre, x, y)
    ensures Shifted(pre, Run(x, s), Run(y, s))
    decreases |s|
  {
    if s == "" {
    } else if Escapes(x, s) {
      RunShifted(pre, x.(current := x.current + [s[1]]), y.(current := y.current + [s[1]]), s[2..]);
    } else {
      RunShifted(pre, Step(x, s[0]), Step(y, s[0]), s[1..]);
    }
  }

  lemma {:induction false} RunSpaces(st: State, ws: string)
    requires !st.inQuotes && AllSpace(ws)
    ensures Run(st, ws) == if ws == "" then st else Flush(st)
    decreases |ws|
  {
    if ws != "" {
      RunSpaces(Flush(st), ws[1..]);
    }
  }

  /** Whitespace met outside quotes cuts the line into two independent halves. */
  lemma ParseSplits(a: string, ws: string, b: string)
    requires !Run(FRESH, a).inQuotes
    requires ws != "" && AllSpace(ws)
    ensures Parse(a + ws + b) == Parse(a) + Parse(b)
  {
    var mid := Run(FRESH, a);
    RunSpaces(mid, ws);
    RunConcat(FRESH, a, ws);
    RunConcat(FRESH, a + ws, b);
    RunShifted(Flush(mid).args, FRESH, Flush(mid), b);
  }

  // ----- Every line -----------------------------------------------------------------------

  predicate IsPlain(c: char) {
    !IsSpace(c) && !IsQuote(c)
  }

  /** Outside quotes plain characters, backslashes among them, make up a word as they stand. */
  lemma {:induction false} RunPlain(st: State, w: string)
    requires !st.inQuotes && forall i :: 0 <= i < |w| ==> IsPlain(w[i])
    ensures Run(st, w) == st.(current := st.current + w)
    decreases |w|
  {
    if w == "" {
      assert st.current + w == st.current;
    } else {
      RunPlain(Step(st, w[0]), w[1..]);
      assert st.current + [w[0]] + w[1..] == st.current + w;
    }
  }

  /** A line without white space and quotes is one word. */
  lemma ParsePlain(w: string)
    requires w != ""
    requires forall i :: 0 <= i < |w| ==> w[i] != ' ' && !('\t' <= w[i] <= '\r') && w[i] != '"' && w[i] != '\''
    ensures Parse(w) == [w]
  {
    RunPlain(FRESH, w);
    assert FRESH.current + w == w;
  }

  /** A character between quotes: any one after a backslash, and bare all but the quote character
      and the backslash. */
  datatype Inner = Bare(c: char) | Escaped(c: char)

  /** What lines are made of. */
  datatype Piece = Gap(c: char) | Plain(c: char) | Enclosed(quote: char, body: seq<Inner>)

  /** The end of a line: it may lie between quotes that are not closed, with a last backslash that
      has nothing to escape. */
  datatype Tail = Closed | Open(quote: char, body: seq<Inner>, dangling: bool)

  predicate IsBody(q: char, body: seq<Inner>) {
    IsQuote(q) && forall i :: 0 <= i < |body| ==> body[i].Bare? ==> body[i].c != q && body[i].c != '\\'
  }

  predicate IsPiece(p: Piece) {
    match p
    case Gap(c) => IsSpace(c)
    case Plain(c) => IsPlain(c)
    case Enclosed(q, body) => IsBody(q, body)
  }

  predicate IsLine(ps: seq<Piece>, tail: Tail) {
    && (forall i :: 0 <= i < |ps| ==> IsPiece(ps[i]))
    && (tail.Open? ==> IsBody(tail.quote, tail.body))
  }

  function SpelledInner(x: Inner): string {
    if x.Bare? then [x.c] else ['\\', x.c]
  }

  function Spelled(body: seq<Inner>): string {
    if body == [] then "" else SpelledInner(body[0]) + Spelled(body[1..])
  }

  function Meant(body: seq<Inner>): string {
    seq(|body|, i requires 0 <= i < |body| => body[i].c)
  }

  function SpelledPiece(p: Piece): string {
    match p
    case Gap(c) => [c]
    case Plain(c) => [c]
    case Enclosed(q, body) => [q] + Spelled(body) + [q]
  }

  function SpelledTail(tail: Tail): string {
    match tail
    case Closed => ""
    case Open(q, body, dangling) => [q] + Spelled(body) + if dangling then "\\" else ""
  }

  function SpelledLine(ps: seq<Piece>, tail: Tail): string {
    if ps == [] then SpelledTail(tail) else SpelledPiece(ps[0]) + SpelledLine(ps[1..], tail)
  }

  function MeantTail(tail: Tail): string {
    match tail
    case Closed => ""
    case Open(_, body, dangling) => Meant(body) + if dangling then "\\" else ""
  }

  /** One word, or none if it is empty. */
  function Word(w: string): seq<string> {
    if w == "" then [] else [w]
  }

  /** The words of a line, of which the first has begun with `begun`: pieces that touch belong to
      one word, gaps end it. */
  function WordsOf(begun: string, ps: seq<Piece>, tail: Tail): seq<string>
    decreases |ps|
  {
    if ps == [] then Word(begun + MeantTail(tail))
    else
      match ps[0]
      case Gap(_) => Word(begun) + WordsOf("", ps[1..], tail)
      case Plain(c) => WordsOf(begun + [c], ps[1..], tail)
      case Enclosed(_, body) => WordsOf(begun + Meant(body), ps[1..], tail)
  }

  lemma RunNext(st: State, s: string)
    requires s != "" && !Escapes(st, s)
    ensures Run(st, s) == Run(Step(st, s[0]), s[1..])
  {
  }

  lemma RunNothing(st: State, s: string)
    requires s == ""
    ensures Run(st, s) == st
  {
  }

  lemma RunInner(st: State, x: Inner, rest: string)
    requires st.inQuotes && IsBody(st.quoteChar, [x])
    ensures Run(st, SpelledInner(x) + rest) == Run(st.(current := st.current + [x.c]), rest)
  {
    var s := SpelledInner(x) + rest;
    if x.Bare? {
      assert [x][0] == x && s[1..] == rest;
    } else {
      assert s[2..] == rest;
    }
  }

  lemma {:induction false} RunBody(st: State, body: seq<Inner>, rest: string)
    requires st.inQuotes && IsBody(st.quoteChar, body)
    ensures Run(st, Spelled(body) + rest) == Run(st.(current := st.current + Meant(body)), rest)
    decreases |body|
  {
    hide Run, SpelledInner;
    if body == [] {
      assert Spelled(body) + rest == rest && st.current + Meant(body) == st.current;
    } else {
      var next := st.(current := st.current + [body[0].c]);
      assert next.current + Meant(body[1..]) == st.current + Meant(body);
      assert Spelled(body) + rest == SpelledInner(body[0]) + (Spelled(body[1..]) + rest);
      RunInner(st, body[0], Spelled(body[1..]) + rest);
      RunBody(next, body[1..], rest);
    }
  }

  lemma RunOpening(st: State, q: char, body: seq<Inner>, rest: string)
    requires !st.inQuotes && IsBody(q, body)
    ensures Run(st, [q] + Spelled(body) + rest)
         == Run(st.(current := st.current + Meant(body), inQuotes := true, quoteChar := q), rest)
  {
    hide Run, Spelled;
    var s := [q] + Spelled(body) + rest;
    RunNext(st, s);
    assert s[1..] == Spelled(body) + rest;
    RunBody(Step(st, q), body, rest);
  }

  lemma RunPiece(st: State, p: Piece, rest: string)
    requires !st.inQuotes && IsPiece(p) && !p.Gap?
    ensures var st' := Run(st, SpelledPiece(p));
            && !st'.inQuotes && st'.args == st.args
            && st'.current == st.current + (if p.Plain? then [p.c] else Meant(p.body))
            && Run(st, SpelledPiece(p) + rest) == Run(st', rest)
  {
    hide Run, Spelled;
    if p.Plain? {
      RunNext(st, [p.c]);
      RunNothing(Step(st, p.c), [p.c][1..]);
    } else {
      RunOpening(st, p.quote, p.body, [p.quote]);
      var open := st.(current := st.current + Meant(p.body), inQuotes := true, quoteChar := p.quote);
      RunNext(open, [p.quote]);
      RunNothing(Step(open, p.quote), [p.quote][1..]);
    }
    RunConcat(st, SpelledPiece(p), rest);
  }

  lemma RunTail(st: State, tail: Tail)
    requires !st.inQuotes && IsLine([], tail)
    ensures Run(st, SpelledTail(tail)).args == st.args
    ensures Run(st, SpelledTail(tail)).current == st.current + MeantTail(tail)
  {
    hide Run, Spelled;
    if tail.Open? {
      var last := if tail.dangling then "\\" else "";
      RunOpening(st, tail.quote, tail.body, last);
      var open := st.(current := st.current + Meant(tail.body), inQuotes := true, quoteChar := tail.quote);
      if tail.dangling {
        RunNext(open, last);
        RunNothing(Step(open, last[0]), last[1..]);
      } else {
        RunNothing(open, last);
      }
    } else {
      RunNothing(st, "");
    }
  }

  lemma {:induction false} RunLine(st: State, ps: seq<Piece>, tail: Tail)
    requires !st.inQuotes && IsLine(ps, tail)
    ensures Flush(Run(st, SpelledLine(ps, tail))).args == st.args + WordsOf(st.current, ps, tail)
    decreases |ps|
  {
    hide Run, SpelledPiece, SpelledTail, MeantTail, IsPiece, IsBody;
    if ps == [] {
      RunTail(st, tail);
    } else if ps[0].Gap? {
      RunGap(st, ps[0].c, SpelledLine(ps[1..], tail));
      assert SpelledPiece(ps[0]) == [ps[0].c] && IsPiece(ps[0]) by { GapIs(ps[0].c); }
      RunLine(Flush(st), ps[1..], tail);
    } else {
      RunPiece(st, ps[0], SpelledLine(ps[1..], tail));
      RunLine(Run(st, SpelledPiece(ps[0])), ps[1..], tail);
    }
  }

  lemma GapIs(c: char)
    ensures SpelledPiece(Gap(c)) == [c]
  {
  }

  lemma RunGap(st: State, c: char, rest: string)
    requires !st.inQuotes && IsPiece(Gap(c))
    ensures Run(st, [c] + rest) == Run(Flush(st), rest)
  {
    assert ([c] + rest)[1..] == rest;
  }

  /** The words that the tokenizer finds in a line are those that its pieces mean. */
  lemma ParseLine(ps: seq<Piece>, tail: Tail)
    requires IsLine(ps, tail)
    ensures Parse(SpelledLine(ps, tail)) == WordsOf("", ps, tail)
  {
    hide Run, SpelledLine, WordsOf;
    RunLine(FRESH, ps, tail);
  }

  lemma BodyExtends(q: char, x: Inner, body: seq<Inner>)
    requires IsBody(q, body) && IsBody(q, [x])
    ensures IsBody(q, [x] + body) && Spelled([x] + body) == SpelledInner(x) + Spelled(body)
  {
    assert [x][0] == x && ([x] + body)[1..] == body;
  }

  /** What follows an opening quote: a body up to the closing quote, or to the end of the line. */
  lemma {:induction false} EveryBody(q: char, s: string) returns (body: seq<Inner>, closed: bool, dangling: bool, rest: string)
    requires IsQuote(q)
    ensures IsBody(q, body)
    ensures closed ==> s == Spelled(body) + [q] + rest
    ensures !closed ==> s == Spelled(body) + if dangling then "\\" else ""
    decreases |s|
  {
    body, closed, dangling, rest := [], false, false, "";
    if s == "" {
    } else if s[0] == q {
      closed, rest := true, s[1..];
    } else if s[0] == '\\' && |s| == 1 {
      dangling := true;
    } else {
      hide Spelled;
      var x := if s[0] == '\\' then Escaped(s[1]) else Bare(s[0]);
      var n := |SpelledInner(x)|;
      var more;
      more, closed, dangling, rest := EveryBody(q, s[n..]);
      BodyExtends(q, x, more);
      body := [x] + more;
      assert s == SpelledInner(x) + s[n..];
    }
  }

  lemma LineExtends(p: Piece, ps: seq<Piece>, tail: Tail)
    requires IsPiece(p) && IsLine(ps, tail)
    ensures IsLine([p] + ps, tail) && SpelledLine([p] + ps, tail) == SpelledPiece(p) + SpelledLine(ps, tail)
  {
    hide IsPiece, SpelledPiece, IsBody;
    assert ([p] + ps)[1..] == ps;
  }

  lemma TailIsLine(tail: Tail)
    requires tail.Open? ==> IsBody(tail.quote, tail.body)
    ensures IsLine([], tail) && SpelledLine([], tail) == SpelledTail(tail)
  {
  }

  /** Every line is made of such pieces; so with `ParseLine` its words are known. */
  lemma {:induction false} EveryLine(s: string) returns (ps: seq<Piece>, tail: Tail)
    ensures IsLine(ps, tail) && SpelledLine(ps, tail) == s
    decreases |s|
  {
    hide SpelledLine, IsLine, Spelled, IsBody;
    ps, tail := [], Closed;
    if s == "" {
      TailIsLine(Closed);
    } else {
      if !IsQuote(s[0]) {
        ps, tail := EveryLine(s[1..]);
        var p := if IsSpace(s[0]) then Gap(s[0]) else Plain(s[0]);
        LineExtends(p, ps, tail);
        ps := [p] + ps;
      } else {
        var body, closed, dangling, rest := EveryBody(s[0], s[1..]);
        if closed {
          ps, tail := EveryLine(rest);
          LineExtends(Enclosed(s[0], body), ps, tail);
          ps := [Enclosed(s[0], body)] + ps;
          assert s == [s[0]] + Spelled(body) + [s[0]] + rest;
        } else {
          tail := Open(s[0], body, dangling);
          TailIsLine(tail);
        }
      }
    }
  }

  /** Each of the six blanks ends a word outside quotes. */
  lemma ParseSplitsAt(a: string, c: char, b: string)
    requires !Run(FRESH, a).inQuotes
    requires c == ' ' || '\t' <= c <= '\r'
    ensures Parse(a + [c] + b) == Parse(a) + Parse(b)
  {
    ParseSplits(a, [c], b);
  }

  /** Between double or single quotes every character but the quote and the backslash stands for
      itself, blanks and the other quote among them. */
  lemma ParseBetweenQuotes(q: char, text: string)
    requires (q == '"' || q == '\'') && text != ""
    requires forall i :: 0 <= i < |text| ==> text[i] != q && text[i] != '\\'
    ensures Parse([q] + text + [q]) == [text]
  {
    hide Run;
    var body := seq(|text|, i requires 0 <= i < |text| => Bare(text[i]));
    SpelledBare(text, body);
    RunPiece(FRESH, Enclosed(q, body), "");
    assert Meant(body) == text && FRESH.current + text == text;
  }

  lemma {:induction false} SpelledBare(text: string, body: seq<Inner>)
    requires |body| == |text| && forall i :: 0 <= i < |text| ==> body[i] == Bare(text[i])
    ensures Spelled(body) == text
    decreases |text|
  {
    if text != "" {
      SpelledBare(text[1..], body[1..]);
      assert text == [text[0]] + text[1..];
    }
  }

  // ----- The printer ----------------------------------------------------------------------

  /** A word, the quote character to print it in, and the whitespace printed after it. */
  datatype Item = Item(text: string, quote: char, gap: string)

  /** Whitespace separates the words; after the last one it is optional. */
  predicate Printable(items: seq<Item>) {
    forall i :: 0 <= i < |items| ==>
      && IsQuote(items[i].quote)
      && AllSpace(items[i].gap)
      && (i < |items| - 1 ==> items[i].gap != "")
  }

  /** A text between quotes, with a backslash where one is needed. */
  function Escape(q: char, text: string): seq<Inner> {
    seq(|text|, i requires 0 <= i < |text| => if text[i] == '\\' || text[i] == q then Escaped(text[i]) else Bare(text[i]))
  }

  function Quoted(item: Item): string {
    SpelledPiece(Enclosed(item.quote, Escape(item.quote, item.text)))
  }

  function Render(items: seq<Item>): string {
    if items == [] then "" else Quoted(items[0]) + items[0].gap + Render(items[1..])
  }

  function Texts(items: seq<Item>): seq<string> {
    seq(|items|, i requires 0 <= i < |items| => items[i].text)
  }

  /** The texts that are not empty, in order. */
  function Words(items: seq<Item>): seq<string> {
    if items == [] then [] else Word(items[0].text) + Words(items[1..])
  }

  lemma EscapeIs(q: char, text: string)
    requires IsQuote(q)
    ensures IsBody(q, Escape(q, text)) && Meant(Escape(q, text)) == text
  {
  }

  lemma ParseQuoted(item: Item)
    requires IsQuote(item.quote)
    ensures !Run(FRESH, Quoted(item)).inQuotes
    ensures Parse(Quoted(item)) == Words([item])
  {
    hide Run, Spelled, Escape;
    var body := Escape(item.quote, item.text);
    EscapeIs(item.quote, item.text);
    RunPiece(FRESH, Enclosed(item.quote, body), "");
    assert FRESH.current + item.text == item.text;
    assert Words([item]) == Word(item.text);
  }

  lemma ParseNothing()
    ensures Parse("") == []
  {
  }

  /** Printing and parsing a list of words gives back the words that are not empty, whatever
      quote characters and whitespace were chosen. */
  lemma {:induction false} ParseRender(items: seq<Item>)
    requires Printable(items)
    ensures Parse(Render(items)) == Words(items)
    decreases |items|
  {
    hide Run, Parse, Quoted, IsSpace, IsQuote, Word;
    if items == [] {
      ParseNothing();
    } else {
      ParseQuoted(items[0]);
      ParseRender(items[1..]);
      if items[0].gap == "" {
        assert items[1..] == [];
        assert Render(items) == Quoted(items[0]);
      } else {
        ParseSplits(Quoted(items[0]), items[0].gap, Render(items[1..]));
      }
    }
  }

  lemma {:induction false} WordsAreTexts(items: seq<Item>)
    ensures |Words(items)| <= |items|
    ensures Words(items) == Texts(items) <==> "" !in Texts(items)
    decreases |items|
  {
    if items != [] {
      var rest := items[1..];
      WordsAreTexts(rest);
      assert Texts(items) == [items[0].text] + Texts(rest);
      if items[0].text == "" {
        assert Texts(items)[0] == "";
        assert |Words(items)| < |Texts(items)|;
      } else {
        assert Words(items) == [items[0].text] + Words(rest);
        assert Words(items)[1..] == Words(rest) && Texts(items)[1..] == Texts(rest);
      }
    }
  }

  /** The printed line parses back to the printed list exactly when no word of it is empty:
      an empty word, even quoted, is lost. */
  lemma ParseInvertsRenderIff(items: seq<Item>, lead: string)
    requires Printable(items) && AllSpace(lead)
    ensures Parse(lead + Render(items)) == Texts(items) <==> "" !in Texts(items)
  {
    if lead == "" {
      assert lead + Render(items) == Render(items);
    } else {
      ParseSplits("", lead, Render(items));
      assert "" + lead + Render(items) == lead + Render(items);
    }
    ParseRender(items);
    WordsAreTexts(items);
  }

  function Items(words: seq<string>, q: char): seq<Item> {
    seq(|words|, i requires 0 <= i < |words| => Item(words[i], q, " "))
  }

  /** Every line has a normal form: its own words, quoted, which parse back to the same words. */
  lemma NormalForm(line: string, q: char)
    requires q == '"' || q == '\''
    ensures Parse(Render(Items(Parse(line), q))) == Parse(line)
  {
    var items := Items(Parse(line), q);
    NoEmptyWord(line);
    assert Texts(items) == Parse(line);
    ParseRender(items);
    WordsAreTexts(items);
  }
}
