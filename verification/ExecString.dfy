/** The tokenizer for Exec lines of desktop entries. */
module ExecStrings {

  /** Where the tokenizer stands between two characters. */
  datatype State = State(
    arguments: seq<string>, currentArgument: string, parsingString: bool, escape: nat, percent: bool)

  const START := State([], "", false, 0, false)

  /** What an escaped letter inside quotes stands for; any other letter stands for itself. */
  function Unescaped(c: char): char {
    match c
    case 's' => ' '
    case 'n' => '\n'
    case 't' => '\t'
    case 'r' => '\r'
    case _ => c
  }

  function Push(s: State): State {
    if s.currentArgument != "" then s.(arguments := s.arguments + [s.currentArgument], currentArgument := "") else s
  }

  function Append(s: State, c: char): State { s.(currentArgument := s.currentArgument + [c]) }

  function Step(s: State, c: char): State {
    if s.escape == 0 && c == '\\' then s.(escape := 1)
    else if s.parsingString then
      if c == '\\' then
        if s.escape + 1 == 4 then Append(s, '\\').(escape := 0) else s.(escape := s.escape + 1)
      else if s.escape == 2 then Append(s, c).(escape := 0)
      else if s.escape != 0 then Append(s, Unescaped(c)).(escape := 0)
      else if c == '"' || c == '\'' then s.(parsingString := false)
      else Append(s, c)
    else if s.escape != 0 then Append(s, c).(escape := 0)
    else if s.percent then (if c == '%' then Append(s, '%') else s).(percent := false)
    else if c == '%' then s.(percent := true)
    else if c == '"' || c == '\'' then s.(parsingString := true)
    else if c == ' ' then Push(s)
    else Append(s, c)
  }

  function Steps(s: State, text: string): State
    decreases |text|
  {
    if text == "" then s else Steps(Step(s, text[0]), text[1..])
  }

  function ParseExec(text: string): seq<string> {
    Push(Steps(START, text)).arguments
  }

  // ---- Writing command lines ----

  /** A character inside quotes: any one, with `twice` to escape it although it need not be, one of the
      four that have a letter, or one that has none, behind one backslash or three. */
  datatype Inside =
    | Char(c: char, twice: bool)
    | Space(thrice: bool) | NewLine(thrice: bool) | Tab(thrice: bool) | Return(thrice: bool)
    | Illegal(c: char, thrice: bool)

  /** A piece of a word: text in quotes of either kind, text as it is, a character behind a backslash,
      a field code that is to be dropped, or one whose code comes after such a character. */
  datatype Piece =
    | Quoted(open: char, inside: seq<Inside>, close: char) | Bare(text: string) | Escaped(c: char)
    | FieldCode(code: char) | LateCode(c: char, code: char)

  type Word = seq<Piece>

  predicate IsQuote(c: char) {
    c == '"' || c == '\''
  }

  predicate Writable(p: Piece) {
    match p
    case Quoted(open, inside, close) => IsQuote(open) && IsQuote(close) && forall k :: 0 <= k < |inside| ==> HasNoLetter(inside[k])
    case Bare(text) => forall k :: 0 <= k < |text| ==> text[k] != '\\' && !IsQuote(text[k]) && text[k] != ' '
    case Escaped(_) => true
    case FieldCode(code) => code != '%' && code != '\\'
    case LateCode(_, code) => code != '\\'
  }

  ghost predicate AllWritable(words: seq<Word>) {
    forall k, l :: 0 <= k < |words| && 0 <= l < |words[k]| ==> Writable(words[k][l])
  }

  function Slashes(thrice: bool): string {
    if thrice then "\\\\\\" else "\\"
  }

  /** Inside quotes a backslash takes four, and either quote is escaped twice. */
  function WriteInside(i: Inside): string {
    match i
    case Char(c, twice) => if c == '\\' then "\\\\\\\\" else if IsQuote(c) || twice then "\\\\" + [c] else [c]
    case Space(thrice) => Slashes(thrice) + "s"
    case NewLine(thrice) => Slashes(thrice) + "n"
    case Tab(thrice) => Slashes(thrice) + "t"
    case Return(thrice) => Slashes(thrice) + "r"
    case Illegal(c, thrice) => Slashes(thrice) + [c]
  }

  function TextInside(i: Inside): char {
    match i
    case Char(c, _) => c
    case Space(_) => ' '
    case NewLine(_) => '\n'
    case Tab(_) => '\t'
    case Return(_) => '\r'
    case Illegal(c, _) => c
  }

  predicate HasNoLetter(i: Inside) {
    i.Illegal? ==> i.c != 's' && i.c != 'n' && i.c != 't' && i.c != 'r' && i.c != '\\'
  }

  ghost predicate NoLetters(inside: seq<Inside>) {
    forall k :: 0 <= k < |inside| ==> HasNoLetter(inside[k])
  }

  function WriteInsides(inside: seq<Inside>): string {
    if inside == [] then "" else WriteInside(inside[0]) + WriteInsides(inside[1..])
  }

  function TextInsides(inside: seq<Inside>): string {
    if inside == [] then "" else [TextInside(inside[0])] + TextInsides(inside[1..])
  }

  /** A percent sign takes two. */
  function WriteBare(text: string): string {
    if text == "" then "" else WriteBareChar(text[0]) + WriteBare(text[1..])
  }

  function WritePiece(p: Piece): string {
    match p
    case Quoted(open, inside, close) => [open] + (WriteInsides(inside) + [close])
    case Bare(text) => WriteBare(text)
    case Escaped(c) => ['\\', c]
    case FieldCode(code) => ['%', code]
    case LateCode(c, code) => ['%', '\\'] + [c, code]
  }

  function TextOfPiece(p: Piece): string {
    match p
    case Quoted(_, inside, _) => TextInsides(inside)
    case Bare(text) => text
    case Escaped(c) => [c]
    case FieldCode(_) => ""
    case LateCode(c, code) => if code == '%' then [c, '%'] else [c]
  }

  function Write(w: Word): string {
    if w == [] then "" else WritePiece(w[0]) + Write(w[1..])
  }

  function TextOf(w: Word): string {
    if w == [] then "" else TextOfPiece(w[0]) + TextOf(w[1..])
  }

  function WriteAll(words: seq<Word>): string {
    if words == [] then ""
    else if |words| == 1 then Write(words[0])
    else WriteAll(words[..|words| - 1]) + (" " + Write(words[|words| - 1]))
  }

  /** The words that carry text: empty ones cannot be told from none at all. */
  function Arguments(words: seq<Word>): seq<string> {
    if words == [] then []
    else Arguments(words[..|words| - 1]) + if TextOf(words[|words| - 1]) != "" then [TextOf(words[|words| - 1])] else []
  }

  // ---- Reading them ----

  lemma {:induction false} StepsConcat(s: State, a: string, b: string)
    ensures Steps(s, a + b) == Steps(Steps(s, a), b)
    decreases |a|
  {
    hide Step;
    if a == "" {
      assert a + b == b;
    } else {
      assert (a + b)[0] == a[0] && (a + b)[1..] == a[1..] + b;
      StepsConcat(Step(s, a[0]), a[1..], b);
    }
  }

  lemma OneStep(s: State, c: char)
    ensures Steps(s, [c]) == Step(s, c)
  {
    hide Step;
    assert [c][1..] == "";
  }

  lemma TwoSteps(s: State, c: char, d: char)
    ensures Steps(s, [c, d]) == Step(Step(s, c), d)
  {
    hide Step;
    assert [c, d] == [c] + [d];
    StepsConcat(s, [c], [d]);
    OneStep(s, c);
    OneStep(Step(s, c), d);
  }

  function With(s: State, text: string): State {
    s.(currentArgument := s.currentArgument + text)
  }

  lemma WithMore(s: State, a: string, b: string)
    ensures With(With(s, a), b) == With(s, a + b) && With(s, "") == s
  {
    assert s.currentArgument + a + b == s.currentArgument + (a + b);
    assert s.currentArgument + "" == s.currentArgument;
  }

  /** Each character inside quotes arrives as itself, however it is written. */
  lemma QuotedChar(s: State, i: Inside)
    requires s.parsingString && s.escape == 0 && HasNoLetter(i)
    ensures Steps(s, WriteInside(i)) == With(s, [TextInside(i)])
  {
    if i.Char? {
      var c, s2 := i.c, s.(escape := 2);
      TwoSteps(s, '\\', '\\');
      if c == '\\' {
        assert WriteInside(i) == ['\\', '\\'] + ['\\', '\\'];
        TwoSteps(s2, '\\', '\\');
        StepsConcat(s, ['\\', '\\'], ['\\', '\\']);
      } else if IsQuote(c) || i.twice {
        assert WriteInside(i) == ['\\', '\\'] + [c];
        OneStep(s2, c);
        StepsConcat(s, ['\\', '\\'], [c]);
      } else {
        OneStep(s, c);
      }
    } else {
      var letter := match i case Space(_) => 's' case NewLine(_) => 'n' case Tab(_) => 't' case Return(_) => 'r' case Illegal(c, _) => c;
      if i.thrice {
        assert WriteInside(i) == ['\\', '\\'] + ['\\', letter];
        TwoSteps(s, '\\', '\\');
        TwoSteps(s.(escape := 2), '\\', letter);
        StepsConcat(s, ['\\', '\\'], ['\\', letter]);
      } else {
        assert WriteInside(i) == ['\\', letter];
        TwoSteps(s, '\\', letter);
      }
    }
  }

  lemma {:induction false} QuotedText(s: State, inside: seq<Inside>)
    requires s.parsingString && s.escape == 0 && NoLetters(inside)
    ensures Steps(s, WriteInsides(inside)) == With(s, TextInsides(inside))
    decreases |inside|
  {
    hide Step, WriteInside, TextInside;
    WithMore(s, "", "");
    if inside != [] {
      var t := With(s, [TextInside(inside[0])]);
      QuotedChar(s, inside[0]);
      StepsConcat(s, WriteInside(inside[0]), WriteInsides(inside[1..]));
      QuotedText(t, inside[1..]);
      WithMore(s, [TextInside(inside[0])], TextInsides(inside[1..]));
    }
  }

  /** Between pieces: not in quotes, nothing escaped, no field code begun. */
  predicate AtRest(s: State) {
    !s.parsingString && s.escape == 0 && !s.percent
  }

  function WriteBareChar(c: char): string {
    if c == '%' then "%%" else [c]
  }

  lemma BareChar(s: State, c: char)
    requires AtRest(s) && c != '\\' && !IsQuote(c) && c != ' '
    ensures Steps(s, WriteBareChar(c)) == With(s, [c])
  {
    TwoSteps(s, '%', '%');
    OneStep(s, c);
  }

  lemma {:induction false} BareText(s: State, text: string)
    requires AtRest(s) && Writable(Bare(text))
    ensures Steps(s, WriteBare(text)) == With(s, text)
    decreases |text|
  {
    hide Step, Steps, WriteBareChar;
    WithMore(s, "", "");
    NoSteps(s);
    if text != "" {
      BareChar(s, text[0]);
      StepsConcat(s, WriteBareChar(text[0]), WriteBare(text[1..]));
      BareText(With(s, [text[0]]), text[1..]);
      WithMore(s, [text[0]], text[1..]);
    }
  }

  lemma NoSteps(s: State)
    ensures Steps(s, "") == s
  {
  }

  /** A piece adds its text to the current argument. */
  lemma PieceRead(s: State, p: Piece)
    requires AtRest(s) && Writable(p)
    ensures Steps(s, WritePiece(p)) == With(s, TextOfPiece(p))
  {
    WithMore(s, "", "");
    match p {
      case Quoted(open, inside, close) =>
        var quoted := s.(parsingString := true);
        OneStep(s, open);
        QuotedText(quoted, inside);
        OneStep(With(quoted, TextInsides(inside)), close);
        hide Step;
        StepsConcat(s, [open], WriteInsides(inside) + [close]);
        StepsConcat(quoted, WriteInsides(inside), [close]);
      case Bare(text) => BareText(s, text);
      case Escaped(c) => TwoSteps(s, '\\', c);
      case FieldCode(code) => TwoSteps(s, '%', code);
      case LateCode(c, code) =>
        var late := s.(percent := true, escape := 1);
        TwoSteps(s, '%', '\\');
        TwoSteps(late, c, code);
        WithMore(s, [c], ['%']);
        assert [c] + ['%'] == [c, '%'];
        hide Step;
        StepsConcat(s, ['%', '\\'], [c, code]);
    }
  }

  /** So does a word made of pieces. */
  lemma {:induction false} WordRead(s: State, w: Word)
    requires AtRest(s) && forall l :: 0 <= l < |w| ==> Writable(w[l])
    ensures Steps(s, Write(w)) == With(s, TextOf(w))
    decreases |w|
  {
    hide Step, WritePiece, TextOfPiece, Writable;
    WithMore(s, "", "");
    if w != [] {
      PieceRead(s, w[0]);
      StepsConcat(s, WritePiece(w[0]), Write(w[1..]));
      WordRead(With(s, TextOfPiece(w[0])), w[1..]);
      WithMore(s, TextOfPiece(w[0]), TextOf(w[1..]));
    }
  }

  lemma {:induction false} WordsRead(words: seq<Word>)
    requires words != [] && AllWritable(words)
    ensures var last := TextOf(words[|words| - 1]);
      Steps(START, WriteAll(words)) == State(Arguments(words[..|words| - 1]), last, false, 0, false)
    decreases |words|
  {
    hide Step, Write, Writable, TextOf;
    var n := |words| - 1;
    var last := words[n];
    assert forall l :: 0 <= l < |last| ==> Writable(words[n][l]);
    if n == 0 {
      assert words[..0] == [];
      WordRead(START, last);
      assert "" + TextOf(last) == TextOf(last);
    } else {
      var before := words[..n];
      assert AllWritable(before) by {
        assert forall k, l :: 0 <= k < n && 0 <= l < |before[k]| ==> before[k] == words[k] && Writable(words[k][l]);
      }
      WordsRead(before);
      var s := Steps(START, WriteAll(before));
      Pushed(s);
      StepsConcat(START, WriteAll(before), " " + Write(last));
      StepsConcat(s, " ", Write(last));
      OneStep(s, ' ');
      WordRead(Push(s), last);
      assert "" + TextOf(last) == TextOf(last);
      assert Push(s).arguments == Arguments(before);
    }
  }

  lemma Pushed(s: State)
    requires AtRest(s)
    ensures Step(s, ' ') == Push(s) && Push(s).currentArgument == "" && AtRest(Push(s))
  {
  }

  /** Whatever is written comes back, except for words without text. */
  lemma ExecRoundTrip(words: seq<Word>)
    requires AllWritable(words)
    ensures ParseExec(WriteAll(words)) == Arguments(words)
  {
    if words != [] {
      WordsRead(words);
    }
  }

  /** How a line can break off: in quotes, after a backslash, or after a percent sign. */
  datatype BrokenOff = InQuotes(open: char, inside: seq<Inside>) | AfterBackslash | AfterPercent

  function WriteBroken(b: BrokenOff): string {
    match b
    case InQuotes(open, inside) => [open] + WriteInsides(inside)
    case AfterBackslash => "\\"
    case AfterPercent => "%"
  }

  function TextOfBroken(b: BrokenOff): string {
    if b.InQuotes? then TextInsides(b.inside) else ""
  }

  lemma BrokenRead(s: State, b: BrokenOff)
    requires AtRest(s) && (b.InQuotes? ==> IsQuote(b.open) && NoLetters(b.inside))
    ensures var t := Steps(s, WriteBroken(b));
      t.arguments == s.arguments && t.currentArgument == s.currentArgument + TextOfBroken(b)
  {
    WithMore(s, "", "");
    match b {
      case InQuotes(open, inside) =>
        OneStep(s, open);
        QuotedText(s.(parsingString := true), inside);
        hide Step;
        StepsConcat(s, [open], WriteInsides(inside));
      case AfterBackslash => OneStep(s, '\\');
      case AfterPercent => OneStep(s, '%');
    }
  }

  /** A line that breaks off still gives its words, the last one with what there is of it. */
  lemma BrokenLine(words: seq<Word>, b: BrokenOff)
    requires AllWritable(words) && words != [] && (b.InQuotes? ==> IsQuote(b.open) && NoLetters(b.inside))
    ensures var last := TextOf(words[|words| - 1]) + TextOfBroken(b);
      ParseExec(WriteAll(words) + WriteBroken(b))
      == Arguments(words[..|words| - 1]) + if last != "" then [last] else []
  {
    hide Step, Steps, TextOf, TextOfBroken, WriteAll, WriteBroken, Arguments, AllWritable;
    WordsRead(words);
    StepsConcat(START, WriteAll(words), WriteBroken(b));
    BrokenRead(Steps(START, WriteAll(words)), b);
  }

  // ---- Lists of arguments ----

  /** The text in double quotes, with `also` naming further characters to escape. */
  function InsideOf(text: string, also: set<char>): (inside: seq<Inside>)
    ensures |inside| == |text|
  {
    seq(|text|, k requires 0 <= k < |text| => Char(text[k], text[k] in also))
  }

  lemma {:induction false} TextOfInside(text: string, also: set<char>)
    ensures TextInsides(InsideOf(text, also)) == text
    decreases |text|
  {
    if text != "" {
      assert InsideOf(text, also)[1..] == InsideOf(text[1..], also);
      TextOfInside(text[1..], also);
    }
  }

  /** The plain case: each argument in double quotes. */
  function AllQuoted(arguments: seq<string>, also: set<char>): seq<Word> {
    seq(|arguments|, k requires 0 <= k < |arguments| => [Quoted('"', InsideOf(arguments[k], also), '"')])
  }

  lemma QuotedWord(text: string, also: set<char>)
    ensures TextOf([Quoted('"', InsideOf(text, also), '"')]) == text
  {
    var w := [Quoted('"', InsideOf(text, also), '"')];
    TextOfInside(text, also);
    assert w[1..] == [] && text + "" == text;
  }

  lemma {:induction false} QuotedArguments(arguments: seq<string>, also: set<char>)
    ensures |Arguments(AllQuoted(arguments, also))| <= |arguments|
    ensures Arguments(AllQuoted(arguments, also)) == arguments <==> "" !in arguments
    decreases |arguments|
  {
    hide TextOf;
    if arguments != [] {
      var before, last := arguments[..|arguments| - 1], arguments[|arguments| - 1];
      assert AllQuoted(arguments, also)[..|arguments| - 1] == AllQuoted(before, also);
      assert arguments == before + [last];
      QuotedWord(last, also);
      QuotedArguments(before, also);
    }
  }

  /** A list of arguments survives being quoted, joined by spaces and parsed exactly when none of
      them is empty. */
  lemma ExecRoundTripExact(arguments: seq<string>, also: set<char>)
    ensures ParseExec(WriteAll(AllQuoted(arguments, also))) == arguments <==> "" !in arguments
  {
    ExecRoundTrip(AllQuoted(arguments, also));
    QuotedArguments(arguments, also);
  }

  // ---- The tokenizer's loop ----

  method ParseExecString(execString: string) returns (arguments: seq<string>)
    ensures arguments == ParseExec(execString)
  {
    arguments := [];
    var currentArgument := "";
    var parsingString, escape: nat, percent := false, 0, false;

    for i := 0 to |execString|
      invariant Steps(START, execString)
        == Steps(State(arguments, currentArgument, parsingString, escape, percent), execString[i..])
    {
      var c := execString[i];
      assert execString[i..][0] == c && execString[i..][1..] == execString[i + 1..];
      if escape == 0 && c == '\\' {
        escape := 1;
      } else if parsingString {
        if c == '\\' {
          escape := escape + 1;
          if escape == 4 {
            currentArgument := currentArgument + ['\\'];
            escape := 0;
          }
        } else if escape == 2 {
          currentArgument := currentArgument + [c];
          escape := 0;
        } else if escape != 0 {
          match c {
            case 's' => currentArgument := currentArgument + [' '];
            case 'n' => currentArgument := currentArgument + ['\n'];
            case 't' => currentArgument := currentArgument + ['\t'];
            case 'r' => currentArgument := currentArgument + ['\r'];
            case _ => currentArgument := currentArgument + [c];
          }
          escape := 0;
        } else if c == '"' || c == '\'' {
          parsingString := false;
        } else {
          currentArgument := currentArgument + [c];
        }
      } else if escape != 0 {
        currentArgument := currentArgument + [c];
        escape := 0;
      } else if percent {
        if c == '%' {
          currentArgument := currentArgument + ['%'];
        }
        percent := false;
      } else if c == '%' {
        percent := true;
      } else if c == '"' || c == '\'' {
        parsingString := true;
      } else if c == ' ' {
        if currentArgument != "" {
          arguments := arguments + [currentArgument];
          currentArgument := "";
        }
      } else {
        currentArgument := currentArgument + [c];
      }
    }

    if currentArgument != "" {
      arguments := arguments + [currentArgument];
    }
  }
}
