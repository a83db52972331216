// Configuration text: the printer, the line-based parser and their round trip.
// Keys are strings; a float parser is a parameter, and a printer for floats, lists and maps is another.
module ConfigText {
  import opened Options
  import opened Bytes
  import opened Decimal

  const INT64_MIN: int := -0x8000_0000_0000_0000
  const INT64_MAX: int := 0x7FFF_FFFF_FFFF_FFFF

  datatype ConfigValue =
    | Text(text: string)
    | Integer(value: int)
    | Boolean(flag: bool)
    | Float(number: real)
    | List(items: seq<ConfigValue>)
    | Table(entries: map<string, ConfigValue>)

  type Config = map<string, ConfigValue>
  type FloatParser = string -> Option<real>
  type Printer = ConfigValue -> string

  // ----- White space -----

  /** The Unicode White_Space property. */
  predicate IsWhite(c: char) {
    || '\U{09}' <= c <= '\U{0D}' || c == ' ' || c == '\U{85}' || c == '\U{A0}' || c == '\U{1680}'
    || '\U{2000}' <= c <= '\U{200A}' || c == '\U{2028}' || c == '\U{2029}' || c == '\U{202F}'
    || c == '\U{205F}' || c == '\U{3000}'
  }

  function TrimStart(s: string): string {
    if s != "" && IsWhite(s[0]) then TrimStart(s[1..]) else s
  }

  function TrimEnd(s: string): string {
    if s != "" && IsWhite(s[|s| - 1]) then TrimEnd(s[..|s| - 1]) else s
  }

  function Trim(s: string): string { TrimEnd(TrimStart(s)) }

  predicate Trimmed(s: string) {
    s == "" || (!IsWhite(s[0]) && !IsWhite(s[|s| - 1]))
  }

  /** The code points of white space. */
  lemma WhiteByCode(c: char)
    ensures IsWhite(c) <==> c as int in {
      9, 10, 11, 12, 13, 32, 133, 160, 5760, 8192, 8193, 8194, 8195, 8196, 8197, 8198, 8199, 8200, 8201, 8202,
      8232, 8233, 8239, 8287, 12288}
  {
  }

  lemma {:induction false} TrimStartShape(s: string)
    ensures TrimStart(s) == "" || !IsWhite(TrimStart(s)[0])
  {
    if s != "" && IsWhite(s[0]) { TrimStartShape(s[1..]); }
  }

  lemma {:induction false} TrimEndShape(s: string)
    ensures TrimEnd(s) <= s
    ensures TrimEnd(s) == "" || !IsWhite(TrimEnd(s)[|TrimEnd(s)| - 1])
  {
    if s != "" && IsWhite(s[|s| - 1]) { TrimEndShape(s[..|s| - 1]); }
  }

  /** Trimming removes white space at both ends, and nothing from a text without any there. */
  lemma TrimShape(s: string)
    ensures Trimmed(Trim(s))
    ensures Trim(s) == s <==> Trimmed(s)
  {
    TrimStartShape(s);
    TrimEndShape(TrimStart(s));
  }

  // ----- Integers -----

  function PrintInteger(i: int): string {
    if i < 0 then "-" + Numeral(-i) else Numeral(i)
  }

  predicate InInt64(i: int) { INT64_MIN <= i <= INT64_MAX }

  predicate DecimalDigits(s: string) {
    s != "" && forall i | 0 <= i < |s| :: '0' <= s[i] <= '9'
  }

  function Magnitude(s: string): int
    requires DecimalDigits(s)
  {
    var digits: seq<Byte> := s;
    Value(digits)
  }

  function InRange(i: int): Option<int> {
    if InInt64(i) then Some(i) else None
  }

  /** A signed 64-bit numeral: an optional sign, then digits. */
  function ParseInteger(s: string): Option<int> {
    if DecimalDigits(s) then InRange(Magnitude(s))
    else if s != "" && s[0] == '+' && DecimalDigits(s[1..]) then InRange(Magnitude(s[1..]))
    else if s != "" && s[0] == '-' && DecimalDigits(s[1..]) then InRange(-Magnitude(s[1..]))
    else None
  }

  /** Every 64-bit integer reads back from its numeral. */
  lemma IntegerRoundTrip(i: int)
    requires InInt64(i)
    ensures ParseInteger(PrintInteger(i)) == Some(i)
  {
    if i < 0 {
      NumeralValue(-i);
      assert PrintInteger(i)[1..] == Numeral(-i);
    } else {
      NumeralValue(i);
    }
  }

  /** Signs: a plus is optional, and outside 64 bits nothing reads as an integer. */
  lemma SignedNumerals(n: int)
    requires n >= 0
    ensures ParseInteger(Numeral(n)) == ParseInteger("+" + Numeral(n))
      == if n <= 9223372036854775807 then Some(n) else None
    ensures ParseInteger("-" + Numeral(n)) == if n <= 9223372036854775808 then Some(-n) else None
    ensures PrintInteger(n) == Numeral(n) && (n > 0 ==> PrintInteger(-n) == "-" + Numeral(n))
  {
    NumeralValue(n);
    SignedDigits(Numeral(n));
    hide ParseInteger;
  }

  lemma SignedDigits(s: string)
    requires DecimalDigits(s)
    ensures ParseInteger(s) == ParseInteger("+" + s) == InRange(Magnitude(s))
    ensures ParseInteger("-" + s) == InRange(-Magnitude(s))
  {
    hide Magnitude, InRange;
    var plus, minus := "+" + s, "-" + s;
    assert plus[1..] == s && minus[1..] == s;
    assert plus[0] == '+' && minus[0] == '-';
  }

  /** Only 0 and 1 print as "0" and "1". */
  lemma SingleDigits(i: int)
    ensures PrintInteger(i) == "0" ==> i == 0
    ensures PrintInteger(i) == "1" ==> i == 1
  {
    if i >= 0 {
      NumeralValue(i);
      NumeralValue(0);
      NumeralValue(1);
    }
  }

  // ----- Values -----

  function LowerChar(c: char): char {
    if 'A' <= c <= 'Z' then (c as int + 32) as char else c
  }

  predicate Matches(s: string, word: string) {
    |s| == |word| && forall i | 0 <= i < |s| :: LowerChar(s[i]) == LowerChar(word[i])
  }

  predicate ReadsTrue(s: string) { Matches(s, "true") || Matches(s, "yes") || Matches(s, "on") || s == "1" }

  predicate ReadsFalse(s: string) { Matches(s, "false") || Matches(s, "no") || Matches(s, "off") || s == "0" }

  function ParseValue(s: string, parseFloat: FloatParser): ConfigValue {
    if s == "" then Boolean(true)
    else if ReadsTrue(s) then Boolean(true)
    else if ReadsFalse(s) then Boolean(false)
    else match ParseInteger(s)
      case Some(i) => Integer(i)
      case None =>
        match parseFloat(s)
        case Some(f) => Float(f)
        case None => Text(s)
  }

  /** A text in lower case, by code. */
  ghost function Lower(s: string): (r: string)
    ensures |r| == |s|
    ensures forall i | 0 <= i < |s| ::
      r[i] as int == if 65 <= s[i] as int <= 90 then s[i] as int + 32 else s[i] as int
  {
    seq(|s|, i requires 0 <= i < |s| => if 'A' <= s[i] <= 'Z' then (s[i] as int + 32) as char else s[i])
  }

  lemma MatchesIff(s: string, word: string)
    requires forall i | 0 <= i < |word| :: 'a' <= word[i] <= 'z'
    ensures Matches(s, word) <==> Lower(s) == word
  {
    if Matches(s, word) { assert forall i | 0 <= i < |s| :: Lower(s)[i] == LowerChar(s[i]); }
  }

  /**
   * How a value reads: an absent one, "1" and three words, in any case, are true; "0" and three words
   * are false; then integers, then floats; any other text stands for itself.
   */
  lemma ValueReadsAs(s: string, parseFloat: FloatParser)
    ensures ParseValue(s, parseFloat) == (
      if s == "" || s == "1" || Lower(s) in {"true", "yes", "on"} then Boolean(true)
      else if s == "0" || Lower(s) in {"false", "no", "off"} then Boolean(false)
      else if ParseInteger(s).Some? then Integer(ParseInteger(s).value)
      else if parseFloat(s).Some? then Float(parseFloat(s).value)
      else Text(s))
  {
    hide Matches, Lower;
    MatchesIff(s, "true");
    MatchesIff(s, "yes");
    MatchesIff(s, "on");
    MatchesIff(s, "false");
    MatchesIff(s, "no");
    MatchesIff(s, "off");
  }

  predicate Simple(v: ConfigValue) { v.Text? || v.Integer? || v.Boolean? }

  function PrintValue(v: ConfigValue, structured: Printer): string {
    match v
    case Text(s) => s
    case Integer(i) => PrintInteger(i)
    case Boolean(b) => if b then "true" else "false"
    case _ => structured(v)
  }

  /** Values that survive printing: 0 and 1 read as booleans, and texts must not read as anything else. */
  predicate GoodValue(v: ConfigValue, parseFloat: FloatParser) {
    match v
    case Text(s) =>
      && s != "" && Trimmed(s) && !ReadsTrue(s) && !ReadsFalse(s)
      && ParseInteger(s).None? && parseFloat(s).None?
    case Integer(i) => InInt64(i) && i != 0 && i != 1
    case Boolean(_) => true
    case _ => false
  }

  lemma NumeralIsNoWord(i: int)
    ensures var s := PrintInteger(i);
      && s != "" && Trimmed(s) && '\n' !in s
      && !Matches(s, "true") && !Matches(s, "yes") && !Matches(s, "on")
      && !Matches(s, "false") && !Matches(s, "no") && !Matches(s, "off")
  {
    var s := PrintInteger(i);
    assert forall k | 0 <= k < |s| :: s[k] == '-' || '0' <= s[k] <= '9';
    assert !IsWhite(s[0]) && !IsWhite(s[|s| - 1]);
    assert LowerChar(s[0]) == s[0];
  }

  /** A printed value, trimmed, reads back exactly for the good values. */
  lemma ValueRoundTrip(v: ConfigValue, parseFloat: FloatParser, structured: Printer)
    requires Simple(v) && (v.Integer? ==> InInt64(v.value))
    ensures ParseValue(Trim(PrintValue(v, structured)), parseFloat) == v <==> GoodValue(v, parseFloat)
  {
    var s := PrintValue(v, structured);
    TrimShape(s);
    match v {
      case Text(_) =>
      case Integer(i) =>
        NumeralIsNoWord(i);
        SingleDigits(i);
        IntegerRoundTrip(i);
        if i == 0 { assert s == "0"; } else if i == 1 { assert s == "1"; }
      case Boolean(b) =>
        assert Trimmed(s);
    }
  }

  lemma GoodValueText(v: ConfigValue, parseFloat: FloatParser, structured: Printer)
    requires GoodValue(v, parseFloat)
    ensures var s := PrintValue(v, structured); s != "" && Trimmed(s)
  {
    if v.Integer? { NumeralIsNoWord(v.value); }
  }

  // ----- Lines -----

  function FindEquals(s: string): (r: Option<nat>)
    ensures r.Some? ==> r.value < |s| && s[r.value] == '=' && '=' !in s[..r.value]
    ensures r.None? ==> '=' !in s
  {
    if s == "" then None
    else if s[0] == '=' then Some(0)
    else match FindEquals(s[1..])
      case None => None
      case Some(i) =>
        assert s[..i + 1] == [s[0]] + s[1..][..i];
        Some(i + 1)
  }

  /** The parameter a line defines; blank lines and comments define none. */
  function ParseLine(line: string, parseFloat: FloatParser): Option<(string, ConfigValue)> {
    var text := Trim(line);
    if text == "" || text[0] == '#' || text[0] == ';' then None
    else match FindEquals(text)
      case Some(i) => Some((Trim(text[..i]), ParseValue(Trim(text[i + 1..]), parseFloat)))
      case None => Some((text, Boolean(true)))
  }

  function PrintLine(key: string, v: ConfigValue, structured: Printer): string {
    key + "=" + PrintValue(v, structured)
  }

  predicate GoodKey(key: string) {
    Trimmed(key) && '=' !in key && (key != "" ==> key[0] != '#' && key[0] != ';')
  }

  lemma EqualsAfterKey(key: string, rest: string)
    requires '=' !in key
    ensures FindEquals(key + "=" + rest) == Some(|key|)
  {
    var s := key + "=" + rest;
    var r := FindEquals(s);
    assert s[|key|] == '=';
    assert s[|key|] in s;
  }

  /** A line made of a good key and a good value reads back as that parameter. */
  lemma LineRoundTrip(key: string, v: ConfigValue, parseFloat: FloatParser, structured: Printer)
    requires GoodKey(key) && GoodValue(v, parseFloat)
    ensures ParseLine(PrintLine(key, v, structured), parseFloat) == Some((key, v))
    ensures PrintLine(key, v, structured) != "" && Trimmed(PrintLine(key, v, structured))
  {
    hide ParseValue, GoodValue, PrintValue, Trim;
    var s := PrintValue(v, structured);
    var line := PrintLine(key, v, structured);
    GoodValueText(v, parseFloat, structured);
    assert line[|line| - 1] == s[|s| - 1];
    assert line[0] == if key == "" then '=' else key[0];
    TrimShape(line);
    EqualsAfterKey(key, s);
    assert line[..|key|] == key && line[|key| + 1..] == s;
    TrimShape(key);
    SimpleGood(v, parseFloat);
    ValueRoundTrip(v, parseFloat, structured);
  }

  /**
   * Lines without a parameter, and parameters without a value: blank lines and comments define
   * nothing; a key on its own, or followed by an equals sign alone, is true.
   */
  lemma BareLines(text: string, parseFloat: FloatParser)
    requires Trimmed(text) && '=' !in text
    ensures text == "" || text[0] == '#' || text[0] == ';' ==> ParseLine(text, parseFloat) == None
    ensures text != "" && text[0] != '#' && text[0] != ';' ==>
      && ParseLine(text, parseFloat) == Some((text, Boolean(true)))
      && ParseLine(text + "=", parseFloat) == Some((text, Boolean(true)))
  {
    TrimShape(text);
    if text != "" && text[0] != '#' && text[0] != ';' {
      var line := text + "=";
      assert Trimmed(line) by { assert line[0] == text[0] && line[|line| - 1] == '='; }
      TrimShape(line);
      assert line == text + "=" + "";
      EqualsAfterKey(text, "");
      assert line[..|text|] == text && line[|text| + 1..] == "";
      TrimShape("");
    }
  }

  /** What is printed: the key, an equals sign, and the text, numeral or word of the value. */
  lemma PrintedForm(key: string, s: string, n: int, b: bool, structured: Printer)
    requires n >= 0
    ensures PrintLine(key, Text(s), structured) == key + "=" + s
    ensures PrintLine(key, Integer(n), structured) == key + "=" + Numeral(n)
    ensures n > 0 ==> PrintLine(key, Integer(-n), structured) == key + "=-" + Numeral(n)
    ensures PrintLine(key, Boolean(b), structured) == if b then key + "=true" else key + "=false"
  {
    assert key + "=" + ("-" + Numeral(n)) == key + "=-" + Numeral(n);
  }

  lemma SimpleGood(v: ConfigValue, parseFloat: FloatParser)
    requires GoodValue(v, parseFloat)
    ensures Simple(v) && (v.Integer? ==> InInt64(v.value))
  {
  }

  // ----- The other direction -----

  lemma {:induction false} TrimStartKeeps(s: string, c: char)
    requires !IsWhite(c)
    ensures c in TrimStart(s) <==> c in s
  {
    if s != "" && IsWhite(s[0]) {
      TrimStartKeeps(s[1..], c);
      assert s == [s[0]] + s[1..];
    }
  }

  lemma {:induction false} TrimEndKeeps(s: string, c: char)
    requires !IsWhite(c)
    ensures c in TrimEnd(s) <==> c in s
  {
    if s != "" && IsWhite(s[|s| - 1]) {
      TrimEndKeeps(s[..|s| - 1], c);
      assert s == s[..|s| - 1] + [s[|s| - 1]];
    }
  }

  /** Trimming neither removes nor invents equals signs. */
  lemma TrimKeepsEquals(s: string)
    ensures '=' in Trim(s) <==> '=' in s
  {
    TrimStartKeeps(s, '=');
    TrimEndKeeps(TrimStart(s), '=');
  }

  lemma {:induction false} TrimEndAfterEquals(key: string, s: string)
    ensures TrimEnd(key + "=" + s) == key + "=" + TrimEnd(s)
  {
    var line := key + "=" + s;
    if s == "" {
      assert line[|line| - 1] == '=';
      assert TrimEnd(s) == s;
    } else {
      assert line[..|line| - 1] == key + "=" + s[..|s| - 1];
      TrimEndAfterEquals(key, s[..|s| - 1]);
    }
  }

  lemma TrimLine(key: string, s: string)
    requires Trimmed(key)
    ensures Trim(key + "=" + s) == key + "=" + TrimEnd(s)
  {
    assert !IsWhite((key + "=" + s)[0]);
    TrimEndAfterEquals(key, s);
  }

  lemma PrintedIsTrimmed(v: ConfigValue, structured: Printer)
    requires v.Integer? || v.Boolean?
    ensures Trimmed(PrintValue(v, structured))
  {
    if v.Integer? { NumeralIsNoWord(v.value); }
  }

  /** The key a line yields is trimmed and free of equals signs. */
  lemma ParsedKeyShape(line: string, parseFloat: FloatParser)
    requires '=' in line && ParseLine(line, parseFloat).Some?
    ensures Trimmed(ParseLine(line, parseFloat).value.0) && '=' !in ParseLine(line, parseFloat).value.0
  {
    hide ParseValue;
    TrimKeepsEquals(line);
    var text := Trim(line);
    var i := FindEquals(text).value;
    TrimShape(text[..i]);
    TrimKeepsEquals(text[..i]);
  }

  lemma ParsedLineValue(key: string, s: string, parseFloat: FloatParser)
    requires Trimmed(key) && '=' !in key
    requires ParseLine(key + "=" + s, parseFloat).Some?
    ensures key != "" ==> key[0] != '#' && key[0] != ';'
    ensures ParseLine(key + "=" + s, parseFloat).value.1 == ParseValue(Trim(TrimEnd(s)), parseFloat)
  {
    hide ParseValue;
    TrimLine(key, s);
    var text := key + "=" + TrimEnd(s);
    EqualsAfterKey(key, TrimEnd(s));
    assert text[|key| + 1..] == TrimEnd(s);
    assert key != "" ==> text[0] == key[0];
  }

  lemma ParsedTextIsTrimmed(s: string, parseFloat: FloatParser)
    requires ParseValue(Trim(TrimEnd(s)), parseFloat) == Text(s)
    ensures Trimmed(s)
  {
    ParsedText(Trim(TrimEnd(s)), s, parseFloat);
    hide ParseValue, Trim, TrimEnd;
    TrimShape(TrimEnd(s));
  }

  lemma ParsedText(t: string, s: string, parseFloat: FloatParser)
    requires ParseValue(t, parseFloat) == Text(s)
    ensures t == s
  {
  }

  /** Nothing else reads back: the good keys and values are exactly those that survive. */
  lemma LineRoundTripOnlyIf(key: string, v: ConfigValue, parseFloat: FloatParser, structured: Printer)
    requires Simple(v) && (v.Integer? ==> InInt64(v.value))
    requires ParseLine(PrintLine(key, v, structured), parseFloat) == Some((key, v))
    ensures GoodKey(key) && GoodValue(v, parseFloat)
  {
    hide ParseValue, GoodValue, PrintValue, ParseLine, Trim, TrimEnd;
    var s := PrintValue(v, structured);
    var line := PrintLine(key, v, structured);
    assert line[|key|] == '=';
    ParsedKeyShape(line, parseFloat);
    ParsedLineValue(key, s, parseFloat);
    if v.Text? {
      PrintedText(v, structured);
      ParsedTextIsTrimmed(s, parseFloat);
    } else {
      PrintedIsTrimmed(v, structured);
    }
    TrimmedEnd(s);
    ValueRoundTrip(v, parseFloat, structured);
  }

  lemma PrintedText(v: ConfigValue, structured: Printer)
    requires v.Text?
    ensures PrintValue(v, structured) == v.text
  {
  }

  lemma TrimmedEnd(s: string)
    requires Trimmed(s)
    ensures TrimEnd(s) == s
  {
  }

  // ----- Whole configurations -----

  function FindNewline(s: string): (r: Option<nat>)
    ensures r.Some? ==> r.value < |s| && s[r.value] == '\n' && '\n' !in s[..r.value]
    ensures r.None? ==> '\n' !in s
  {
    if s == "" then None
    else if s[0] == '\n' then Some(0)
    else match FindNewline(s[1..])
      case None => None
      case Some(i) =>
        assert s[..i + 1] == [s[0]] + s[1..][..i];
        Some(i + 1)
  }

  /** Lines end at a newline, less one carriage return before it; nothing follows a final newline. */
  function Lines(s: string): seq<string> {
    if s == "" then []
    else match FindNewline(s)
      case None => [s]
      case Some(i) => [if i > 0 && s[i - 1] == '\r' then s[..i - 1] else s[..i]] + Lines(s[i + 1..])
  }

  /** A line ends at a newline, less one carriage return before it; a last line may lack the newline. */
  lemma LinesOfText(line: string, rest: string)
    requires '\n' !in line
    ensures Lines(line + "\n" + rest)
      == [if line != "" && line[|line| - 1] == '\r' then line[..|line| - 1] else line] + Lines(rest)
    ensures line != "" ==> Lines(line) == [line]
    ensures Lines("") == []
  {
    NewlineAfterLine(line, rest);
    hide FindNewline;
    var s := line + "\n" + rest;
    assert s[..|line|] == line && s[|line| + 1..] == rest;
    if line != "" { assert s[|line| - 1] == line[|line| - 1] && s[..|line| - 1] == line[..|line| - 1]; }
  }

  function Join(lines: seq<string>): string {
    if lines == [] then "" else if |lines| == 1 then lines[0] else lines[0] + "\n" + Join(lines[1..])
  }

  predicate SingleLine(s: string) { s != "" && '\n' !in s && s[|s| - 1] != '\r' }

  lemma NewlineAfterLine(line: string, rest: string)
    requires '\n' !in line
    ensures FindNewline(line + "\n" + rest) == Some(|line|)
  {
    var s := line + "\n" + rest;
    assert s[|line|] == '\n';
    assert s[|line|] in s;
  }

  lemma LinesOfFirst(line: string, rest: string)
    requires SingleLine(line)
    ensures Lines(line + "\n" + rest) == [line] + Lines(rest)
  {
    var s := line + "\n" + rest;
    NewlineAfterLine(line, rest);
    hide FindNewline;
    assert s[..|line|] == line && s[|line| + 1..] == rest;
    assert s[|line| - 1] == line[|line| - 1];
  }

  lemma LinesOfLast(line: string)
    requires SingleLine(line)
    ensures Lines(line) == [line]
  {
  }

  lemma {:induction false} LinesOfJoin(lines: seq<string>)
    requires forall k | 0 <= k < |lines| :: SingleLine(lines[k])
    ensures Lines(Join(lines)) == lines
  {
    if |lines| == 1 {
      LinesOfLast(lines[0]);
    } else if |lines| > 1 {
      hide Lines, SingleLine;
      LinesOfJoin(lines[1..]);
      LinesOfFirst(lines[0], Join(lines[1..]));
    } else {
      assert Lines("") == [];
    }
  }

  /** Later lines override earlier ones. */
  function ParseLines(lines: seq<string>, parseFloat: FloatParser): Config {
    if lines == [] then map[]
    else
      var config := ParseLines(lines[..|lines| - 1], parseFloat);
      match ParseLine(lines[|lines| - 1], parseFloat)
      case None => config
      case Some((key, v)) => config[key := v]
  }

  /** A later line decides about its key and leaves the others alone. */
  lemma LaterLineWins(
      lines: seq<string>, line: string, parseFloat: FloatParser, key: string, v: ConfigValue, other: string)
    ensures ParseLines([], parseFloat) == map[]
    ensures ParseLine(line, parseFloat) == None ==>
      ParseLines(lines + [line], parseFloat) == ParseLines(lines, parseFloat)
    ensures ParseLine(line, parseFloat) == Some((key, v)) ==>
      var before, after := ParseLines(lines, parseFloat), ParseLines(lines + [line], parseFloat);
      && key in after && after[key] == v
      && (other != key ==> (other in after <==> other in before) && (other in after ==> after[other] == before[other]))
  {
    hide ParseLine;
    assert (lines + [line])[..|lines|] == lines;
  }

  method FromStr(input: string, parseFloat: FloatParser) returns (r: Result<Config, string>)
    ensures r == Ok(ParseLines(Lines(input), parseFloat))
  {
    var config: Config := map[];
    var lines := Lines(input);
    for k := 0 to |lines|
      invariant config == ParseLines(lines[..k], parseFloat)
    {
      assert lines[..k + 1][..k] == lines[..k];
      var entry := ParseLine(lines[k], parseFloat);
      if entry.Some? {
        config := config[entry.value.0 := entry.value.1];
      }
    }
    assert lines[..|lines|] == lines;
    r := Ok(config);
  }

  /** Some arrangement of the keys of a configuration: iteration order and sorting are left open. */
  ghost predicate Lists(order: seq<string>, c: Config) {
    && (forall i, j | 0 <= i < j < |order| :: order[i] != order[j])
    && (forall key :: key in order <==> key in c)
  }

  function PrintedLines(c: Config, order: seq<string>, structured: Printer): (r: seq<string>)
    requires forall k | 0 <= k < |order| :: order[k] in c
    ensures |r| == |order| && forall k | 0 <= k < |r| :: r[k] == PrintLine(order[k], c[order[k]], structured)
  {
    seq(|order|, k requires 0 <= k < |order| => PrintLine(order[k], c[order[k]], structured))
  }

  function PrintConfig(c: Config, order: seq<string>, structured: Printer): string
    requires forall k | 0 <= k < |order| :: order[k] in c
  {
    Join(PrintedLines(c, order, structured))
  }

  predicate OneLineText(v: ConfigValue) { v.Text? ==> '\n' !in v.text }

  ghost predicate GoodConfig(c: Config, parseFloat: FloatParser) {
    forall key | key in c :: GoodKey(key) && '\n' !in key && GoodValue(c[key], parseFloat) && OneLineText(c[key])
  }

  lemma PrintedLineIsSingle(key: string, v: ConfigValue, parseFloat: FloatParser, structured: Printer)
    requires GoodKey(key) && '\n' !in key && GoodValue(v, parseFloat) && OneLineText(v)
    ensures SingleLine(PrintLine(key, v, structured))
  {
    LineRoundTrip(key, v, parseFloat, structured);
    OneLineValue(v, structured, parseFloat);
    hide GoodKey, GoodValue, PrintValue, ParseLine, OneLineText;
    var line := PrintLine(key, v, structured);
    assert !IsWhite(line[|line| - 1]);
  }

  lemma OneLineValue(v: ConfigValue, structured: Printer, parseFloat: FloatParser)
    requires GoodValue(v, parseFloat) && OneLineText(v)
    ensures '\n' !in PrintValue(v, structured)
  {
    if v.Integer? { NumeralIsNoWord(v.value); }
  }

  lemma {:induction false} ParsePrinted(
      c: Config, order: seq<string>, parseFloat: FloatParser, structured: Printer, n: nat)
    requires Lists(order, c) && GoodConfig(c, parseFloat) && n <= |order|
    ensures var r := ParseLines(PrintedLines(c, order, structured)[..n], parseFloat);
      && (forall key :: key in r <==> key in order[..n])
      && (forall key | key in r :: key in c && r[key] == c[key])
  {
    hide ParseLine, PrintLine, ParseLines, GoodKey, GoodValue, OneLineText;
    var lines := PrintedLines(c, order, structured);
    if n == 0 {
      ParseNothing(lines[..0], parseFloat);
    } else {
      var key := order[n - 1];
      ParsePrinted(c, order, parseFloat, structured, n - 1);
      assert order[..n] == order[..n - 1] + [key];
      LineRoundTrip(key, c[key], parseFloat, structured);
      ParseStep(lines, n, key, c[key], parseFloat);
    }
  }

  lemma ParseNothing(lines: seq<string>, parseFloat: FloatParser)
    requires lines == []
    ensures ParseLines(lines, parseFloat) == map[]
  {
  }

  lemma ParseStep(lines: seq<string>, n: nat, key: string, v: ConfigValue, parseFloat: FloatParser)
    requires 0 < n <= |lines| && ParseLine(lines[n - 1], parseFloat) == Some((key, v))
    ensures ParseLines(lines[..n], parseFloat) == ParseLines(lines[..n - 1], parseFloat)[key := v]
  {
    assert lines[..n][..n - 1] == lines[..n - 1];
  }

  /** Printing a good configuration, in any order, and parsing the text gives it back. */
  lemma ConfigRoundTrip(c: Config, order: seq<string>, parseFloat: FloatParser, structured: Printer)
    requires Lists(order, c) && GoodConfig(c, parseFloat)
    ensures ParseLines(Lines(PrintConfig(c, order, structured)), parseFloat) == c
  {
    hide GoodKey, GoodValue, OneLineText, SingleLine, ParseLines, PrintLine, Lines, Join;
    var lines := PrintedLines(c, order, structured);
    forall k | 0 <= k < |lines| ensures SingleLine(lines[k]) {
      PrintedLineIsSingle(order[k], c[order[k]], parseFloat, structured);
    }
    LinesOfJoin(lines);
    ParsePrinted(c, order, parseFloat, structured, |order|);
    assert lines[..|order|] == lines && order[..|order|] == order;
  }

  // ----- No other configuration survives -----

  ghost predicate AllSimple(c: Config) {
    forall key | key in c :: Simple(c[key]) && (c[key].Integer? ==> InInt64(c[key].value))
  }

  /** What parsing yields: no newline, and texts that are trimmed and not empty. */
  ghost predicate Readable(key: string, v: ConfigValue) {
    '\n' !in key && (v.Text? ==> v.text != "" && Trimmed(v.text) && '\n' !in v.text)
  }

  lemma {:induction false} TrimStartFree(s: string)
    requires '\n' !in s
    ensures '\n' !in TrimStart(s)
  {
    if s != "" && IsWhite(s[0]) { TrimStartFree(s[1..]); }
  }

  lemma TrimFree(s: string)
    requires '\n' !in s
    ensures '\n' !in Trim(s)
  {
    TrimStartFree(s);
    TrimEndShape(TrimStart(s));
  }

  lemma ParsedIsReadable(line: string, parseFloat: FloatParser)
    requires '\n' !in line && ParseLine(line, parseFloat).Some?
    ensures var (key, v) := ParseLine(line, parseFloat).value; Readable(key, v)
  {
    hide IsWhite;
    var text := Trim(line);
    TrimFree(line);
    var i := FindEquals(text);
    if i.Some? {
      TrimFree(text[..i.value]);
      TrimFree(text[i.value + 1..]);
      TrimShape(text[i.value + 1..]);
    }
  }

  lemma {:induction false} LinesAreFree(s: string)
    ensures forall k | 0 <= k < |Lines(s)| :: '\n' !in Lines(s)[k]
    decreases |s|
  {
    var i := FindNewline(s);
    if s != "" && i.Some? {
      LinesAreFree(s[i.value + 1..]);
    }
  }

  /** Every parameter of a parsed text comes from one of its lines. */
  lemma {:induction false} ParsedOrigin(lines: seq<string>, parseFloat: FloatParser, key: string) returns (k: nat)
    requires key in ParseLines(lines, parseFloat)
    ensures k < |lines| && ParseLine(lines[k], parseFloat) == Some((key, ParseLines(lines, parseFloat)[key]))
  {
    hide ParseLine;
    var n := |lines| - 1;
    var last := ParseLine(lines[n], parseFloat);
    if last.Some? && last.value.0 == key {
      k := n;
    } else {
      k := ParsedOrigin(lines[..n], parseFloat, key);
    }
  }

  lemma ReadableLine(key: string, v: ConfigValue, structured: Printer)
    requires Simple(v) && Readable(key, v)
    ensures SingleLine(PrintLine(key, v, structured))
  {
    var s := PrintValue(v, structured);
    match v {
      case Text(_) =>
      case Integer(i) => NumeralIsNoWord(i);
      case Boolean(_) =>
    }
    var line := PrintLine(key, v, structured);
    assert line[|line| - 1] == s[|s| - 1];
  }

  /** A printed line with a trimmed key that is free of equals signs can only define that key. */
  lemma PrintedDefines(key: string, s: string, parseFloat: FloatParser)
    requires Trimmed(key) && '=' !in key && ParseLine(key + "=" + s, parseFloat).Some?
    ensures ParseLine(key + "=" + s, parseFloat).value.0 == key
  {
    hide ParseValue;
    TrimLine(key, s);
    EqualsAfterKey(key, TrimEnd(s));
    assert (key + "=" + TrimEnd(s))[..|key|] == key;
    TrimShape(key);
  }

  /** A simple configuration that survives printing and parsing is printed one parameter a line. */
  lemma SurvivorIsReadable(c: Config, text: string, parseFloat: FloatParser)
    requires ParseLines(Lines(text), parseFloat) == c
    ensures forall key | key in c :: Readable(key, c[key])
  {
    hide ParseLine, ParseLines, Lines, Readable;
    LinesAreFree(text);
    forall key | key in c ensures Readable(key, c[key]) {
      var k := ParsedOrigin(Lines(text), parseFloat, key);
      ParsedIsReadable(Lines(text)[k], parseFloat);
    }
  }

  lemma ReadableLines(c: Config, order: seq<string>, structured: Printer)
    requires Lists(order, c) && AllSimple(c) && forall key | key in c :: Readable(key, c[key])
    ensures Lines(PrintConfig(c, order, structured)) == PrintedLines(c, order, structured)
  {
    hide Readable, SingleLine, PrintLine, Lines, Join;
    var lines := PrintedLines(c, order, structured);
    forall k | 0 <= k < |lines| ensures SingleLine(lines[k]) {
      ReadableLine(order[k], c[order[k]], structured);
    }
    LinesOfJoin(lines);
  }

  /** In the printed lines of a survivor every key is trimmed and free of equals signs. */
  lemma SurvivorKeys(c: Config, order: seq<string>, parseFloat: FloatParser, structured: Printer)
    requires Lists(order, c) && ParseLines(PrintedLines(c, order, structured), parseFloat) == c
    ensures forall key | key in c :: Trimmed(key) && '=' !in key
  {
    hide ParseLine, ParseLines, PrintValue, Trimmed;
    var lines := PrintedLines(c, order, structured);
    forall key | key in c ensures Trimmed(key) && '=' !in key {
      var k := ParsedOrigin(lines, parseFloat, key);
      assert lines[k][|order[k]|] == '=';
      ParsedKeyShape(lines[k], parseFloat);
    }
  }

  lemma SurvivorLine(c: Config, order: seq<string>, parseFloat: FloatParser, structured: Printer, key: string)
    requires Lists(order, c) && ParseLines(PrintedLines(c, order, structured), parseFloat) == c && key in c
    ensures ParseLine(PrintLine(key, c[key], structured), parseFloat) == Some((key, c[key]))
  {
    hide ParseLine, ParseLines, PrintValue, Trimmed;
    SurvivorKeys(c, order, parseFloat, structured);
    var k := ParsedOrigin(PrintedLines(c, order, structured), parseFloat, key);
    var printed := order[k];
    PrintedDefines(printed, PrintValue(c[printed], structured), parseFloat);
  }

  /** Among simple 64-bit configurations exactly the good ones survive, in whatever order they are printed. */
  lemma ConfigRoundTripIff(c: Config, order: seq<string>, parseFloat: FloatParser, structured: Printer)
    requires Lists(order, c) && AllSimple(c)
    ensures ParseLines(Lines(PrintConfig(c, order, structured)), parseFloat) == c <==> GoodConfig(c, parseFloat)
  {
    hide GoodKey, GoodValue, ParseLine, ParseLines, Lines, PrintLine;
    if GoodConfig(c, parseFloat) {
      ConfigRoundTrip(c, order, parseFloat, structured);
    }
    if ParseLines(Lines(PrintConfig(c, order, structured)), parseFloat) == c {
      SurvivorIsReadable(c, PrintConfig(c, order, structured), parseFloat);
      ReadableLines(c, order, structured);
      forall key | key in c
        ensures GoodKey(key) && '\n' !in key && GoodValue(c[key], parseFloat) && OneLineText(c[key])
      {
        SurvivorLine(c, order, parseFloat, structured, key);
        LineRoundTripOnlyIf(key, c[key], parseFloat, structured);
      }
    }
  }
}
