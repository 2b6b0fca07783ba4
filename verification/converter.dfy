/**
 The line converter: raw multi-line text is split into lines, each line is
 trimmed and loses at most one layer of surrounding quotes, empty lines are
 dropped, and the survivors are written out as a bracketed, comma-newline
 separated list of double-quoted strings (app.js, `normalizeLine`,
 `linesFromInput` and `convert`).
 */
module Converter {
  import opened Wrappers
  import opened Text

  // ---------------------------------------------------------------------------
  // normalizeLine
  // ---------------------------------------------------------------------------

  predicate IsQuote(ch: char) {
    ch == '"' || ch == '\''
  }

  /** The one layer of quoting that `normalizeLine` removes from a trimmed line:
      plain quotes `"…"` / `'…'`, or backslash-escaped quotes `\"…\"` / `\'…\'`. */
  datatype Layer = Bare | Quoted(q: char) | EscapedQuoted(q: char)

  /** The layer recognised on a trimmed line: the rules are tried in source
      order and the first that matches wins. */
  function LayerOf(t: string): Layer {
    if |t| < 2 then Bare
    else if IsQuote(t[0]) && t[|t| - 1] == t[0] then Quoted(t[0])
    else if t[..2] == ['\\', '"'] && t[|t| - 2..] == ['\\', '"'] then EscapedQuoted('"')
    else if t[..2] == ['\\', '\''] && t[|t| - 2..] == ['\\', '\''] then EscapedQuoted('\'')
    else Bare
  }

  /** Puts a layer of quoting around `body`; the inverse of stripping it. */
  function Wrap(layer: Layer, body: string): string {
    match layer
    case Bare => body
    case Quoted(q) => [q] + body + [q]
    case EscapedQuoted(q) => ['\\', q] + body + ['\\', q]
  }

  /** A line with its carriage returns removed and its ends trimmed. */
  function Cleaned(s: string): (t: string)
    ensures '\r' !in t
  {
    TrimKeepsCharacters(RemoveAll(s, '\r'), '\r');
    Trim(RemoveAll(s, '\r'))
  }

  /** One recognised layer of quoting taken off a cleaned line. */
  function Unwrap(t: string): (r: string)
    ensures |r| <= |t|
  {
    match LayerOf(t)
    case Bare => t
    case Quoted(_) => t[1..|t| - 1]
    case EscapedQuoted(_) => if |t| >= 4 then t[2..|t| - 2] else []
  }

  /** `normalizeLine`: the cleaned line without its one recognised layer of
      quoting. */
  function NormalizeLine(s: string): (r: string)
    ensures '\r' !in r
    ensures |r| <= |Cleaned(s)|
  {
    Unwrap(Cleaned(s))
  }

  /** Wrapping again in the layer that was recognised restores the line,
      except for a lone `\"` or `\'`, which `slice(2, -2)` empties. */
  lemma WrapUnwrap(t: string)
    ensures if t == ['\\', '"'] || t == ['\\', '\''] then Unwrap(t) == [] else Wrap(LayerOf(t), Unwrap(t)) == t
  {
    match LayerOf(t)
    case Bare =>
    case Quoted(_) =>
      assert t == [t[0]] + t[1..|t| - 1] + [t[|t| - 1]];
    case EscapedQuoted(_) =>
      if |t| >= 4 {
        assert t == t[..2] + t[2..|t| - 2] + t[|t| - 2..];
      }
  }

  /** Wrapping the normalized line in the layer recognised on the cleaned line
      gives the cleaned line back: exactly one layer is removed and the
      remainder is not trimmed again. The exception is a lone `\"` or `\'`,
      which `slice(2, -2)` turns into the empty string. */
  lemma NormalizeLineUnwraps(s: string)
    ensures var t := Cleaned(s); var r := NormalizeLine(s);
      if t == ['\\', '"'] || t == ['\\', '\''] then r == [] else Wrap(LayerOf(t), r) == t
  {
    WrapUnwrap(Cleaned(s));
  }

  /** Normalization only removes characters. */
  lemma NormalizeLineKeepsCharacters(s: string, ch: char)
    ensures ch in NormalizeLine(s) ==> ch in s
  {
    var u := RemoveAll(s, '\r');
    var t := Trim(u);
    if ch in NormalizeLine(s) {
      assert ch in t;
      TrimKeepsCharacters(u, ch);
      RemoveAllKeepsOthers(s, '\r', ch);
    }
  }

  /** A line without carriage returns and without surrounding whitespace is
      its own cleaned form. */
  lemma CleanedOfClean(t: string)
    requires '\r' !in t && Trim(t) == t
    ensures Cleaned(t) == t
  {
    RemoveAllAbsent(t, '\r');
  }

  /** The layer put on by `Wrap` is the one `LayerOf` recognises. */
  lemma LayerOfWrap(layer: Layer, body: string)
    requires !layer.Bare? && IsQuote(layer.q)
    ensures LayerOf(Wrap(layer, body)) == layer
  {
    var t := Wrap(layer, body);
    if layer.EscapedQuoted? {
      assert t[..2] == ['\\', layer.q];
      assert t[|t| - 2..] == ['\\', layer.q];
    }
  }

  /** `Unwrap` takes off exactly the layer `Wrap` put on. */
  lemma UnwrapWrap(layer: Layer, body: string)
    requires !layer.Bare? ==> IsQuote(layer.q)
    requires layer.Bare? ==> LayerOf(body) == Bare
    ensures Unwrap(Wrap(layer, body)) == body
  {
    if !layer.Bare? {
      var t := Wrap(layer, body);
      LayerOfWrap(layer, body);
      if layer.Quoted? {
        assert t[1..|t| - 1] == body;
      } else {
        assert t[2..|t| - 2] == body;
      }
    }
  }

  /** Stripping undoes wrapping: a body wrapped in quotes loses exactly that
      layer, and a bare body that is already clean is left alone. */
  lemma NormalizeLineOfWrap(layer: Layer, body: string)
    requires !layer.Bare? ==> IsQuote(layer.q)
    requires '\r' !in body
    requires layer.Bare? ==> Trim(body) == body && LayerOf(body) == Bare
    ensures NormalizeLine(Wrap(layer, body)) == body
  {
    var t := Wrap(layer, body);
    assert '\r' !in t;
    if !layer.Bare? {
      assert t != [] && !IsJsSpace(t[0]) && !IsJsSpace(t[|t| - 1]);
      TrimAlreadyTrimmed(t);
    }
    CleanedOfClean(t);
    UnwrapWrap(layer, body);
  }

  // ---------------------------------------------------------------------------
  // linesFromInput
  // ---------------------------------------------------------------------------

  /** `pieces.map(normalizeLine).filter(s => s.length > 0)`. */
  function NormalizedLines(pieces: seq<string>): (lines: seq<string>)
    ensures |lines| <= |pieces|
  {
    if pieces == [] then []
    else
      var n := NormalizeLine(pieces[0]);
      (if n == [] then [] else [n]) + NormalizedLines(pieces[1..])
  }

  /** No line contains a newline. */
  predicate SingleLines(lines: seq<string>) {
    forall i :: 0 <= i < |lines| ==> '\n' !in lines[i]
  }

  /** Every line is non-empty and free of carriage returns. */
  predicate NonEmptyLines(lines: seq<string>) {
    forall i :: 0 <= i < |lines| ==> lines[i] != [] && '\r' !in lines[i]
  }

  /** The filter leaves only non-empty lines, and normalization adds no
      newline. */
  lemma {:induction false} NormalizedLinesShape(pieces: seq<string>)
    ensures NonEmptyLines(NormalizedLines(pieces))
    ensures SingleLines(pieces) ==> SingleLines(NormalizedLines(pieces))
  {
    if pieces != [] {
      var n := NormalizeLine(pieces[0]);
      var k := if n == [] then [] else [n];
      var rest := NormalizedLines(pieces[1..]);
      NormalizedLinesShape(pieces[1..]);
      NormalizeLineKeepsCharacters(pieces[0], '\n');
      assert NormalizedLines(pieces) == k + rest;
      if SingleLines(pieces) {
        assert SingleLines(pieces[1..]) by {
          forall j | 0 <= j < |pieces| - 1 ensures '\n' !in pieces[1..][j] {
            assert pieces[1..][j] == pieces[j + 1];
          }
        }
        assert '\n' !in pieces[0];
      }
    }
  }

  /** What one piece contributes: its normalized line, unless that is empty. */
  function Kept(piece: string): seq<string> {
    var n := NormalizeLine(piece);
    if n == [] then [] else [n]
  }

  lemma NormalizedLinesCons(piece: string, rest: seq<string>)
    ensures NormalizedLines([piece] + rest) == Kept(piece) + NormalizedLines(rest)
  {
    assert ([piece] + rest)[1..] == rest;
  }

  lemma {:induction false} NormalizedLinesConcat(a: seq<string>, b: seq<string>)
    ensures NormalizedLines(a + b) == NormalizedLines(a) + NormalizedLines(b)
  {
    if a == [] {
      assert a + b == b;
    } else {
      NormalizedLinesConcat(a[1..], b);
      NormalizedLinesConcatCons(a, b);
    }
  }

  /** The inductive step of `NormalizedLinesConcat`. */
  lemma NormalizedLinesConcatCons(a: seq<string>, b: seq<string>)
    requires a != []
    requires NormalizedLines(a[1..] + b) == NormalizedLines(a[1..]) + NormalizedLines(b)
    ensures NormalizedLines(a + b) == NormalizedLines(a) + NormalizedLines(b)
  {
    var h, t := a[0], a[1..];
    assert a == [h] + t;
    Associative3([h], t, b);
    NormalizedLinesCons(h, t + b);
    NormalizedLinesCons(h, t);
    var k, x, y := Kept(h), NormalizedLines(t), NormalizedLines(b);
    Associative3(k, x, y);
  }

  /** `linesFromInput`: `None` is a `null` input. Every line is non-empty and
      free of line breaks, and there are at most as many lines as there were
      newline-separated pieces. */
  function LinesFromInput(text: Option<string>): (lines: seq<string>)
    ensures text.None? ==> lines == []
    ensures forall i :: 0 <= i < |lines| ==> lines[i] != [] && '\n' !in lines[i] && '\r' !in lines[i]
    ensures text.Some? ==> |lines| <= Count('\n', text.value) + 1
  {
    match text
    case None => []
    case Some(t) =>
      var pieces := Split(RemoveAll(t, '\r'), '\n');
      RemoveAllKeepsOthers(t, '\r', '\n');
      NormalizedLinesShape(pieces);
      SplitPiecesFree(RemoveAll(t, '\r'), '\n');
      assert SingleLines(pieces);
      NormalizedLines(pieces)
  }

  /** A text without a newline yields its normalized self, or nothing. */
  lemma LinesOfSingleLine(t: string)
    requires '\n' !in t
    ensures var n := NormalizeLine(t);
      LinesFromInput(Some(t)) == if n == [] then [] else [n]
  {
    var u := RemoveAll(t, '\r');
    RemoveAllKeepsOthers(t, '\r', '\n');
    assert '\n' !in u;
    SplitNoSeparator(u, '\n');
    RemoveAllAbsent(u, '\r');
    assert Cleaned(u) == Cleaned(t);
    assert NormalizeLine(u) == NormalizeLine(t);
    assert [u][1..] == [];
    assert NormalizedLines([u]) == (if NormalizeLine(u) == [] then [] else [NormalizeLine(u)]) + NormalizedLines([]);
  }

  /** A newline splits the text into independently converted parts. */
  lemma LinesOfNewline(a: string, b: string)
    ensures LinesFromInput(Some(a + "\n" + b)) == LinesFromInput(Some(a)) + LinesFromInput(Some(b))
  {
    var ra := RemoveAll(a, '\r');
    var rb := RemoveAll(b, '\r');
    RemoveAllConcat(a + "\n", b, '\r');
    RemoveAllConcat(a, "\n", '\r');
    assert RemoveAll("\n", '\r') == "\n";
    assert RemoveAll(a + "\n" + b, '\r') == ra + ['\n'] + rb;
    SplitAtSeparator(ra, rb, '\n');
    NormalizedLinesConcat(Split(ra, '\n'), Split(rb, '\n'));
  }

  // ---------------------------------------------------------------------------
  // quoting and the output literal
  // ---------------------------------------------------------------------------

  /** `s.replace(/"/g, '\\"')`: a backslash before every double quote. */
  function EscapeQuotes(s: string): (e: string)
    ensures |e| == |s| + Count('"', s)
    ensures '\n' in e <==> '\n' in s
  {
    EscapeQuotesLength(s);
    ReplaceAll(s, '"', ['\\', '"'])
  }

  lemma {:induction false} EscapeQuotesLength(s: string)
    ensures |ReplaceAll(s, '"', ['\\', '"'])| == |s| + Count('"', s)
  {
    if s != [] {
      EscapeQuotesLength(s[1..]);
    }
  }

  /** An escaped string never starts with a bare double quote. */
  lemma EscapedHead(s: string)
    requires s != []
    ensures EscapeQuotes(s)[0] != '"'
  {
  }

  /** Drops the backslash of every `\"` pair, read left to right. */
  function UnescapeQuotes(e: string): string
    decreases |e|
  {
    if |e| >= 2 && e[0] == '\\' && e[1] == '"' then ['"'] + UnescapeQuotes(e[2..])
    else if e == [] then []
    else [e[0]] + UnescapeQuotes(e[1..])
  }

  /** Escaping loses nothing: only the inserted backslashes are taken out again. */
  lemma {:induction false} UnescapeEscapeQuotes(s: string)
    ensures UnescapeQuotes(EscapeQuotes(s)) == s
  {
    if s != [] {
      var e := EscapeQuotes(s);
      var e' := EscapeQuotes(s[1..]);
      UnescapeEscapeQuotes(s[1..]);
      if s[0] == '"' {
        assert e == ['\\', '"'] + e';
        assert e[2..] == e';
      } else {
        assert e == [s[0]] + e';
        assert e[1..] == e';
        if e' != [] {
          EscapedHead(s[1..]);
        }
        assert UnescapeQuotes(e) == [s[0]] + UnescapeQuotes(e');
      }
      assert [s[0]] + s[1..] == s;
    }
  }

  /** One output element: the escaped line between double quotes. */
  function QuoteLine(line: string): (item: string)
    ensures |item| >= 2 && item[0] == '"' && item[|item| - 1] == '"'
    ensures '\n' in item <==> '\n' in line
  {
    ['"'] + EscapeQuotes(line) + ['"']
  }

  function QuoteAll(lines: seq<string>): (items: seq<string>)
    ensures |items| == |lines|
  {
    seq(|lines|, i requires 0 <= i < |lines| => QuoteLine(lines[i]))
  }

  /** The bracketed literal around a list of quoted items. */
  lemma LiteralShape(items: seq<string>)
    requires forall i :: 0 <= i < |items| ==> |items[i]| >= 2
    ensures var out := "[\n" + Join(items, ",\n") + "\n]";
      && |out| >= 4 && out[..2] == "[\n" && out[|out| - 2..] == "\n]"
      && out[2..|out| - 2] == Join(items, ",\n")
      && (items == [] <==> out == "[\n\n]")
  {
    var body := Join(items, ",\n");
    var out := "[\n" + body + "\n]";
    if items != [] {
      assert |items[0]| >= 2;
      assert |body| >= 2;
    }
  }

  /** The output of `convert` for `text`: always bracketed by `[\n` and `\n]`,
      and exactly `[\n\n]` when no line survives normalization. */
  function Convert(text: string): (out: string)
    ensures |out| >= 4 && out[..2] == "[\n" && out[|out| - 2..] == "\n]"
    ensures LinesFromInput(Some(text)) == [] <==> out == "[\n\n]"
  {
    var items := QuoteAll(LinesFromInput(Some(text)));
    LiteralShape(items);
    "[\n" + Join(items, ",\n") + "\n]"
  }

  // ---------------------------------------------------------------------------
  // reading a literal back
  // ---------------------------------------------------------------------------

  function DecodeQuoted(item: string): Option<string> {
    if |item| >= 2 && item[0] == '"' && item[|item| - 1] == '"' then
      Some(UnescapeQuotes(item[1..|item| - 1]))
    else None
  }

  /** Reads the newline-separated pieces of a literal's body: every piece but
      the last ends with the separating comma. */
  function DecodeItems(pieces: seq<string>): Option<seq<string>>
    decreases |pieces|
  {
    if pieces == [] then Some([])
    else if |pieces| == 1 then
      var line :- DecodeQuoted(pieces[0]);
      Some([line])
    else
      var p := pieces[0];
      if p != [] && p[|p| - 1] == ',' then
        var line :- DecodeQuoted(p[..|p| - 1]);
        var rest :- DecodeItems(pieces[1..]);
        Some([line] + rest)
      else None
  }

  /** Parses text of the shape `convert` produces back into its lines. */
  function DecodeLiteral(out: string): Option<seq<string>> {
    if |out| >= 4 && out[..2] == "[\n" && out[|out| - 2..] == "\n]" then
      var body := out[2..|out| - 2];
      if body == [] then Some([]) else DecodeItems(Split(body, '\n'))
    else None
  }

  /** A single quoted element reads back as its line. */
  lemma DecodeQuoteLine(line: string)
    ensures DecodeQuoted(QuoteLine(line)) == Some(line)
  {
    var item := QuoteLine(line);
    UnescapeEscapeQuotes(line);
    assert item[1..|item| - 1] == EscapeQuotes(line);
  }

  lemma QuoteAllCons(lines: seq<string>)
    requires |lines| >= 1
    ensures QuoteAll(lines)[0] == QuoteLine(lines[0])
    ensures QuoteAll(lines)[1..] == QuoteAll(lines[1..])
  {
  }

  /** The first newline of a joined body follows the first element and its comma. */
  lemma SplitJoinedItems(item: string, rest: string)
    requires '\n' !in item
    ensures Split(item + ",\n" + rest, '\n') == [item + ","] + Split(rest, '\n')
  {
    assert item + ",\n" + rest == (item + ",") + ['\n'] + rest;
    SplitAtSeparator(item + ",", rest, '\n');
    assert '\n' !in item + ",";
    SplitNoSeparator(item + ",", '\n');
  }

  /** A comma-terminated element in front of decodable pieces. */
  lemma DecodeItemsCons(item: string, line: string, pieces: seq<string>, lines: seq<string>)
    requires DecodeQuoted(item) == Some(line)
    requires pieces != [] && DecodeItems(pieces) == Some(lines)
    ensures DecodeItems([item + ","] + pieces) == Some([line] + lines)
  {
    var all := [item + ","] + pieces;
    assert all[1..] == pieces;
    assert (item + ",")[..|item + ","| - 1] == item;
  }

  /** The body of a literal with one element. */
  lemma DecodeSingleItem(line: string)
    requires '\n' !in line
    ensures DecodeItems(Split(Join(QuoteAll([line]), ",\n"), '\n')) == Some([line])
  {
    var item := QuoteLine(line);
    DecodeQuoteLine(line);
    assert QuoteAll([line]) == [item];
    assert Join([item], ",\n") == item;
    SplitNoSeparator(item, '\n');
  }

  /** One more element in front of a decodable body. */
  lemma DecodeJoinedStep(item: string, line: string, rest: string, lines: seq<string>)
    requires '\n' !in item && DecodeQuoted(item) == Some(line)
    requires DecodeItems(Split(rest, '\n')) == Some(lines)
    ensures DecodeItems(Split(item + ",\n" + rest, '\n')) == Some([line] + lines)
  {
    SplitJoinedItems(item, rest);
    DecodeItemsCons(item, line, Split(rest, '\n'), lines);
  }

  lemma SingleLinesTail(lines: seq<string>)
    requires |lines| >= 1 && SingleLines(lines)
    ensures SingleLines(lines[1..])
  {
    assert forall i :: 0 <= i < |lines| - 1 ==> lines[1..][i] == lines[i + 1];
  }

  /** The inductive step of `DecodeJoinedItems`: one more line in front. */
  lemma DecodeJoinedCons(lines: seq<string>)
    requires |lines| >= 2 && '\n' !in lines[0]
    requires DecodeItems(Split(Join(QuoteAll(lines[1..]), ",\n"), '\n')) == Some(lines[1..])
    ensures DecodeItems(Split(Join(QuoteAll(lines), ",\n"), '\n')) == Some(lines)
  {
    var items := QuoteAll(lines);
    QuoteAllCons(lines);
    DecodeQuoteLine(lines[0]);
    JoinCons(items, ",\n");
    DecodeJoinedStep(items[0], lines[0], Join(items[1..], ",\n"), lines[1..]);
    assert [lines[0]] + lines[1..] == lines;
  }

  lemma {:induction false} DecodeJoinedItems(lines: seq<string>)
    requires |lines| >= 1 && SingleLines(lines)
    ensures DecodeItems(Split(Join(QuoteAll(lines), ",\n"), '\n')) == Some(lines)
  {
    if |lines| == 1 {
      DecodeSingleItem(lines[0]);
      assert [lines[0]] == lines;
    } else {
      SingleLinesTail(lines);
      DecodeJoinedItems(lines[1..]);
      DecodeJoinedCons(lines);
    }
  }

  /** The literal determines the lines: decoding the output of `convert` gives
      back exactly the lines it was built from, so distinct line lists always
      produce distinct output. */
  lemma ConvertRoundTrip(text: string)
    ensures DecodeLiteral(Convert(text)) == Some(LinesFromInput(Some(text)))
  {
    var lines := LinesFromInput(Some(text));
    var out := Convert(text);
    if lines != [] {
      DecodeJoinedItems(lines);
      assert out[2..|out| - 2] == Join(QuoteAll(lines), ",\n");
    }
  }

  // ---------------------------------------------------------------------------
  // examples
  // ---------------------------------------------------------------------------

  /** Empty input still produces a literal: brackets around one blank line. */
  lemma ConvertEmptyInput()
    ensures Convert("") == "[\n\n]"
  {
    LinesOfSingleLine("");
  }

  /** A plain one-character line is kept as it is. */
  lemma NormalizePlainChar(x: char)
    requires !IsJsSpace(x) && x != '\r'
    ensures NormalizeLine([x]) == [x]
  {
    TrimAlreadyTrimmed([x]);
    NormalizeLineOfWrap(Bare, [x]);
  }

  /** A line that normalization leaves unchanged and does not drop. */
  predicate IsCleanLine(line: string) {
    line != [] && '\n' !in line && NormalizeLine(line) == line
  }

  predicate CleanLines(lines: seq<string>) {
    forall i :: 0 <= i < |lines| ==> IsCleanLine(lines[i])
  }

  /** A clean line is its own, single, converted line. */
  lemma LinesOfCleanLine(line: string)
    requires IsCleanLine(line)
    ensures LinesFromInput(Some(line)) == [line]
  {
    LinesOfSingleLine(line);
  }

  lemma CleanLinesTail(lines: seq<string>)
    requires |lines| >= 1 && CleanLines(lines)
    ensures IsCleanLine(lines[0]) && CleanLines(lines[1..])
  {
    assert forall i :: 0 <= i < |lines| - 1 ==> lines[1..][i] == lines[i + 1];
  }

  /** The inductive step of `LinesOfCleanLines`: one more clean line in front. */
  lemma LinesOfCleanCons(lines: seq<string>)
    requires |lines| >= 2 && IsCleanLine(lines[0])
    requires LinesFromInput(Some(Join(lines[1..], "\n"))) == lines[1..]
    ensures LinesFromInput(Some(Join(lines, "\n"))) == lines
  {
    var head, tail := lines[0], lines[1..];
    LinesOfCleanLine(head);
    JoinCons(lines, "\n");
    LinesOfNewline(head, Join(tail, "\n"));
    assert [head] + tail == lines;
  }

  /** Clean lines pass through `linesFromInput` unchanged and in order. */
  lemma {:induction false} LinesOfCleanLines(lines: seq<string>)
    requires |lines| >= 1 && CleanLines(lines)
    ensures LinesFromInput(Some(Join(lines, "\n"))) == lines
  {
    CleanLinesTail(lines);
    if |lines| == 1 {
      LinesOfCleanLine(lines[0]);
      assert lines == [lines[0]];
    } else {
      LinesOfCleanLines(lines[1..]);
      LinesOfCleanCons(lines);
    }
  }

  /** The literal for clean lines is exactly their quoted, comma-newline
      separated list between the brackets. */
  lemma ConvertCleanLines(lines: seq<string>)
    requires |lines| >= 1
    requires CleanLines(lines)
    ensures Convert(Join(lines, "\n")) == "[\n" + Join(QuoteAll(lines), ",\n") + "\n]"
  {
    LinesOfCleanLines(lines);
  }

  lemma CleanABC()
    ensures IsCleanLine("a") && IsCleanLine("b") && IsCleanLine("c")
  {
    NormalizePlainChar('a');
    NormalizePlainChar('b');
    NormalizePlainChar('c');
  }

  lemma JoinOfThree(a: string, b: string, c: string, sep: string)
    ensures Join([a, b, c], sep) == a + sep + b + sep + c
  {
    assert [a, b, c][1..] == [b, c];
    assert [b, c][1..] == [c];
    assert Join([c], sep) == c;
    assert Join([b, c], sep) == b + sep + c;
    assert Join([a, b, c], sep) == a + sep + (b + sep + c);
  }

  lemma QuoteABC()
    ensures QuoteAll(["a", "b", "c"]) == ["\"a\"", "\"b\"", "\"c\""]
  {
    assert EscapeQuotes("a") == "a";
    assert EscapeQuotes("b") == "b";
    assert EscapeQuotes("c") == "c";
    assert QuoteLine("a") == "\"a\"";
    assert QuoteLine("b") == "\"b\"";
    assert QuoteLine("c") == "\"c\"";
  }

  lemma ThreeLineLiterals()
    ensures "a" + "\n" + "b" + "\n" + "c" == "a\nb\nc"
    ensures "[\n" + ("\"a\"" + ",\n" + "\"b\"" + ",\n" + "\"c\"") + "\n]" == "[\n\"a\",\n\"b\",\n\"c\"\n]"
  {
  }

  lemma ConvertThreeLines()
    ensures Convert("a\nb\nc") == "[\n\"a\",\n\"b\",\n\"c\"\n]"
  {
    var lines := ["a", "b", "c"];
    CleanABC();
    JoinOfThree("a", "b", "c", "\n");
    ThreeLineLiterals();
    ConvertCleanLines(lines);
    QuoteABC();
    JoinOfThree("\"a\"", "\"b\"", "\"c\"", ",\n");
  }
}
