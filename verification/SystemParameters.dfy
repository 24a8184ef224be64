/**
 The system parameter file (software/src/systemParameters.c): one line per parameter, each with
 its name and its value.
 */
module SystemParameters {
  import opened Common
  import opened NumberText
  import opened Numerals
  import opened Serdes
  import opened Scalars
  import opened ParameterNames

  /** What a parameter field holds: bytes or trims, a number, or a floating point number, which
      is represented by a decimal numeral for it. */
  datatype Value = Fields(fields: seq<int>) | Number(number: int) | Real(numeral: Numeral)

  /** Values a field of a kind can hold. */
  predicate Holds(kind: Kind, v: Value) {
    match kind
    case Mac => v.Fields? && |v.fields| == 6 && AllBytes(v.fields)
    case Ipv4 => v.Number? && 0 <= v.number < U32
    case Int => v.Number? && IsInt(v.number)
    case Int4 => v.Number? && IsInt(v.number)
    case Hex => v.Number? && IsInt(v.number)
    case Float => v.Real? && v.numeral.Complete()
    case Trims => v.Fields? && |v.fields| == TRIMS
  }

  function Format(kind: Kind, v: Value): string
    requires Holds(kind, v)
  {
    match kind
    case Mac => FormatMAC(v.fields)
    case Ipv4 => FormatIP(v.number)
    case Int => FormatInt(v.number)
    case Int4 => FormatInt4(v.number)
    case Hex => FormatHex(v.number)
    case Float => NumeralText(v.numeral)
    case Trims => FormatTrims(v.fields)
  }

  /** How many characters a text has before the first `c`. */
  function Span(s: string, c: char): (n: nat)
    ensures n <= |s| && c !in s[..n]
    ensures n < |s| ==> s[n] == c
  {
    if s == "" || s[0] == c then 0
    else
      assert forall n :: 0 <= n <= |s| - 1 ==> s[..n + 1] == [s[0]] + s[1..][..n];
      1 + Span(s[1..], c)
  }

  /** What reading a value leaves in its field, and how much text it used: nothing if the text is
      refused. */
  datatype Parsing = Parsing(stored: Value, length: nat)

  /** Reads a value into a field that holds `held`. Bytes and trims are stored one by one, also
      when the text turns out to be wrong. */
  function ParseValue(kind: Kind, str: string, held: Value): (p: Parsing)
    requires Holds(kind, held)
    ensures p.length <= |str| && Holds(kind, p.stored)
  {
    match kind
    case Mac => ParseMac(str, held)
    case Ipv4 => ParseAddress(str, held)
    case Int => AsNumber(ParseInt(str, held.number), held)
    case Int4 => AsNumber(ParseInt(str, held.number), held)
    case Hex => AsNumber(ParseHex(str), held)
    case Float => ParseFloat(str, held)
    case Trims => ParseTrimLine(str, held)
  }

  function ParseMac(str: string, held: Value): (p: Parsing)
    requires Holds(Mac, held)
    ensures p.length <= |str| && Holds(Mac, p.stored)
  {
    Parsing(Fields(Overwritten(held.fields, FieldsRead(str, 16, ':', 6))), Used(ParseFields(str, 16, ':', 6)))
  }

  function ParseTrimLine(str: string, held: Value): (p: Parsing)
    requires Holds(Trims, held)
    ensures p.length <= |str| && Holds(Trims, p.stored)
  {
    Parsing(Fields(Overwritten(held.fields, TrimsRead(str, []))), Used(ParseTrims(str, [])))
  }

  function Used<T>(read: Option<Parsed<T>>): nat {
    match read
    case None => 0
    case Some(p) => p.length
  }

  function ParseAddress(str: string, held: Value): (p: Parsing)
    requires Holds(Ipv4, held)
    ensures p.length <= |str| && Holds(Ipv4, p.stored)
  {
    assert Pow(0x100, 4) == U32 by {
      assert Pow(0x100, 2) == 0x1_0000;
    }
    match ParseFields(str, 10, '.', 4)
    case None => Parsing(held, 0)
    case Some(p) => Parsing(Number(Address(p.value)), p.length)
  }

  function AsNumber(read: Option<Parsed<int>>, held: Value): Parsing {
    match read
    case None => Parsing(held, 0)
    case Some(p) => Parsing(Number(p.value), p.length)
  }

  function ParseFloat(str: string, held: Value): (p: Parsing)
    requires Holds(Float, held)
    ensures p.length <= |str| && Holds(Float, p.stored)
  {
    var p := ReadNumeral(str);
    if p.length == 0 || !EndsValue(CharAt(str, p.length)) then Parsing(held, 0) else Parsing(Real(p.value), p.length)
  }

  /** What reading the printed form of a value leaves in a field: trims are only read up to the
      first that is negative or above 1.75 dB. */
  function ReadBack(kind: Kind, v: Value, held: Value): (r: Value)
    requires Holds(kind, v) && Holds(kind, held)
    ensures Holds(kind, r)
  {
    if kind == Trims then Fields(Overwritten(held.fields, ReadablePrefix(v.fields))) else v
  }

  predicate IsReadable(kind: Kind, v: Value)
    requires Holds(kind, v)
  {
    kind == Trims ==> Readable(v.fields)
  }

  lemma ReadableIsReadBack(kind: Kind, v: Value, held: Value)
    requires Holds(kind, v) && Holds(kind, held) && IsReadable(kind, v)
    ensures ReadBack(kind, v, held) == v
  {
  }

  /** What a value may end at: a line feed, a carriage return, or a comma, but trims not at a comma. */
  predicate MayEnd(kind: Kind, c: char) {
    c == '\n' || c == '\r' || (c == ',' && kind != Trims)
  }

  /** Every value a field can hold is read back from its printed form, whatever the field held
      before; except that trims are refused if one is negative or above 1.75 dB, and then those
      before it have been stored. */
  lemma ValueRoundTrip(kind: Kind, v: Value, held: Value, rest: string)
    requires Holds(kind, v) && Holds(kind, held) && rest != "" && MayEnd(kind, rest[0])
    ensures Format(kind, v) != ""
    ensures ParseValue(kind, Format(kind, v) + rest, held)
            == Parsing(ReadBack(kind, v, held), if IsReadable(kind, v) then |Format(kind, v)| else 0)
  {
    hide ParseFields, FieldsRead, ParseInt, ParseHex, ParseFloat, ParseTrims, TrimsRead,
      FormatInt, FormatInt4, FormatHex, FormatTrims, AddressFields, PrintedFields, Address,
      Numeral.Complete, Readable, ReadablePrefix;
    match kind
    case Mac =>
      FieldsRoundTrip(v.fields, 16, ':', rest);
      AcceptedFieldsRead(FormatMAC(v.fields) + rest, 16, ':', 6);
    case Ipv4 =>
      FieldsRoundTrip(AddressFields(v.number), 10, '.', rest);
      AddressOfFields(v.number);
    case Int => IntRoundTrip(v.number, rest, held.number);
    case Int4 => Int4RoundTrip(v.number, rest, held.number);
    case Hex => HexRoundTrip(v.number, rest);
    case Float => FloatRoundTrip(v.numeral, held, rest);
    case Trims =>
      TrimsRoundTrip(v.fields, [], rest);
      PrintedTrimsRead(v.fields, [], rest);
      assert [] + v.fields == v.fields && [] + ReadablePrefix(v.fields) == ReadablePrefix(v.fields);
  }

  /** A number is only taken if the value ends behind it; otherwise the field keeps what it held. */
  lemma FloatIsTakenIff(n: Numeral, held: Value, rest: string)
    requires n.Complete() && Ends(n, rest) && Holds(Float, held)
    ensures ParseFloat(NumeralText(n) + rest, held)
            == if rest != "" && rest[0] in {',', '\r', '\n'} then Parsing(Real(n), |NumeralText(n)|)
               else Parsing(held, 0)
  {
    hide ReadNumeral, NumeralText, Ends, Numeral.Complete;
    NumeralReads(0, n, rest);
    NumeralBegins(n, "");
    assert Blanks(0) + (NumeralText(n) + rest) == NumeralText(n) + rest;
    assert NumeralText(n) + "" == NumeralText(n);
    assert CharAt(NumeralText(n) + rest, |NumeralText(n)|) == CharAt(rest, 0);
  }

  lemma FloatRoundTrip(n: Numeral, held: Value, rest: string)
    requires Holds(Float, Real(n)) && Holds(Float, held) && rest != "" && EndsValue(rest[0])
    ensures ParseFloat(NumeralText(n) + rest, held) == Parsing(Real(n), |NumeralText(n)|) && NumeralText(n) != ""
  {
    hide ReadNumeral, NumeralText, Ends, Numeral.Complete;
    ValueEnds(n, rest);
    NumeralReads(0, n, rest);
    NumeralBegins(n, "");
    assert Blanks(0) + (NumeralText(n) + rest) == NumeralText(n) + rest;
    assert NumeralText(n) + "" == NumeralText(n);
  }

  /** All parameters, in the order of the table. */
  ghost predicate IsBlock(block: seq<Value>) {
    |block| == COUNT && forall i :: 0 <= i < COUNT ==> Holds(ConvTable()[i].kind, block[i])
  }

  function TextFrom(block: seq<Value>, k: nat): string
    requires IsBlock(block) && k <= COUNT
    decreases COUNT - k
  {
    if k == COUNT then "" else Line(k, block[k]) + TextFrom(block, k + 1)
  }

  function Line(k: nat, v: Value): string
    requires k < COUNT && Holds(ConvTable()[k].kind, v)
  {
    LineWith(k, v, PLAIN)
  }

  /** How a line may be written apart from its value: lines before it that are passed over, its name
      in letters of any case, and its end: a line feed, a carriage return or, except behind trims, a
      comma; with any blanks, commas and more of these behind. */
  datatype Dress = Dress(before: seq<string>, name: Option<string>, end: string)
  {
    ghost predicate Valid(k: nat)
      requires k < COUNT
    {
      && (forall i :: 0 <= i < |before| ==> PassedOver(before[i]) && before[i] != "" && !Trails(before[i][0]))
      && end != "" && MayEnd(ConvTable()[k].kind, end[0])
      && (forall i :: 0 <= i < |end| ==> end[i] in {' ', '\t', '\n', '\r', ','})
      && SameLetters(ConvTable()[k].name, NameOf(k))
    }

    function NameOf(k: nat): string
      requires k < COUNT
    {
      match name
      case None => ConvTable()[k].name
      case Some(other) => other
    }
  }

  /** As it is printed. */
  const PLAIN := Dress([], None, "\n")

  function LineWith(k: nat, v: Value, d: Dress): string
    requires k < COUNT && Holds(ConvTable()[k].kind, v)
  {
    d.NameOf(k) + ([','] + (Format(ConvTable()[k].kind, v) + d.end))
  }

  datatype Problem = UnexpectedEnd | DuplicatedName | InvalidValue | MissingParameters

  /** What parsing leaves: the fields, which parameters have been seen, and whether it failed. */
  datatype Outcome = Outcome(block: seq<Value>, visited: seq<bool>, problem: Option<Problem>)

  /** Blanks, line ends and commas behind a value. */
  function Trailing(s: string): (n: nat)
    ensures n <= |s|
  {
    if s != "" && Trails(s[0]) then 1 + Trailing(s[1..]) else 0
  }

  predicate Trails(c: char) {
    IsSpace(c) || c == ','
  }

  lemma {:induction false} TrailingEnds(end: string, next: string)
    requires forall i :: 0 <= i < |end| ==> Trails(end[i])
    requires next != "" ==> !Trails(next[0])
    ensures Trailing(end + next) == |end| && (end + next)[|end|..] == next
  {
    if end == "" {
      assert end + next == next;
    } else {
      TrailingEnds(end[1..], next);
      assert (end + next)[1..] == end[1..] + next;
    }
  }

  /** What one step of the parser does with the rest of the text. */
  datatype Progress =
    | Stop(problem: Problem)
    | Skip(rest: string)
    | Bad(index: nat, stored: Value)
    | Read(index: nat, value: Value, rest: string)

  function ReadLine(s: string, block: seq<Value>): (p: Progress)
    requires s != "" && IsBlock(block)
    ensures p.Skip? || p.Read? ==> |p.rest| < |s|
    ensures p.Read? ==> p.index < COUNT && Holds(ConvTable()[p.index].kind, p.value)
    ensures p.Bad? ==> p.index < COUNT && Holds(ConvTable()[p.index].kind, p.stored)
  {
    var spn := Span(s, ',');
    if |s| <= spn then Stop(UnexpectedEnd)
    else
      match Lookup(ConvTable(), s[..spn])
      case Ambiguous => Stop(DuplicatedName)
      case Missing =>
        var eol := Span(s, '\n');
        Skip(if eol < |s| then s[eol + 1..] else "")
      case At(i) =>
        var cp := s[spn + 1..];
        var p := ParseValue(ConvTable()[i].kind, cp, block[i]);
        if p.length == 0 then Bad(i, p.stored)
        else Read(i, p.stored, cp[p.length..][Trailing(cp[p.length..])..])
  }

  /* Places of parameters that are treated differently. */
  const DEBUG_FLAGS := 6
  const MMCM_FIRST := 22
  const BUTTON_ROTATION := 25

  /** The upper half of a number as 64 bits. */
  function SignOf(v: Value): Value {
    Number(if v.Number? && v.number < 0 then -1 else 0)
  }

  /** The fields with a new value stored. The debug flags are stored as 64 bits, which also
      overwrites the number behind them with their sign. */
  function Stored(block: seq<Value>, i: nat, v: Value): (r: seq<Value>)
    requires IsBlock(block) && i < COUNT && Holds(ConvTable()[i].kind, v)
    ensures IsBlock(r) && r[i] == v
    ensures forall j :: 0 <= j < COUNT && j != i && (i == DEBUG_FLAGS ==> j != i + 1) ==> r[j] == block[j]
  {
    if i == DEBUG_FLAGS then
      assert Holds(ConvTable()[i + 1].kind, Number(0)) && Holds(ConvTable()[i + 1].kind, Number(-1));
      block[i := v][i + 1 := SignOf(v)]
    else
      block[i := v]
  }

  function Parse(s: string, block: seq<Value>, visited: seq<bool>): Outcome
    requires IsBlock(block) && |visited| == COUNT
    decreases |s|
  {
    if s == "" then Outcome(block, visited, if false in visited then Some(MissingParameters) else None)
    else
      match ReadLine(s, block)
      case Stop(problem) => Outcome(block, visited, Some(problem))
      case Skip(rest) => Parse(rest, block, visited)
      case Bad(i, v) => Outcome(block[i := v], visited, Some(InvalidValue))
      case Read(i, v, rest) => Parse(rest, Stored(block, i, v), visited[i := true])
  }

  lemma {:induction false} SpanOf(s: string, c: char, rest: string)
    requires c !in s
    ensures Span(s + ([c] + rest), c) == |s|
  {
    if s != "" {
      SpanOf(s[1..], c, rest);
      assert (s + ([c] + rest))[1..] == s[1..] + ([c] + rest);
    }
  }

  /** One line is read as its parameter, and nothing of the next line is used up. */
  lemma LineIsRead(k: nat, v: Value, d: Dress, now: seq<Value>, next: string)
    requires IsBlock(now) && k < COUNT && Holds(ConvTable()[k].kind, v) && d.Valid(k)
    requires next != "" ==> !Trails(next[0])
    ensures ReadLine(LineWith(k, v, d) + next, now)
            == if IsReadable(ConvTable()[k].kind, v) then Read(k, v, next)
               else Bad(k, ReadBack(ConvTable()[k].kind, v, now[k]))
  {
    hide ParseValue, Format, Holds, IsReadable, ReadBack, Span, Trailing, Lookup, Describes, Trails,
      ConvTable, LineWith, Dress.NameOf, SameLetters;
    var name, kind := d.NameOf(k), ConvTable()[k].kind;
    var value := Format(kind, v);
    var cp := value + (d.end + next);
    NameBegins(k, name);
    SpanOf(name, ',', cp);
    LineText(k, v, d, next);
    AroundComma(name, cp);
    FullNameFindsItsEntry(k, name, Lookup(ConvTable(), name));
    ValueRoundTrip(kind, v, now[k], d.end + next);
    assert cp[|value|..] == d.end + next;
    EndTrails(d.end);
    TrailingEnds(d.end, next);
    if IsReadable(kind, v) {
      ReadableIsReadBack(kind, v, now[k]);
    }
  }

  lemma EndTrails(end: string)
    requires forall i :: 0 <= i < |end| ==> end[i] in {' ', '\t', '\n', '\r', ','}
    ensures forall i :: 0 <= i < |end| ==> Trails(end[i])
  {
  }

  lemma LineText(k: nat, v: Value, d: Dress, next: string)
    requires k < COUNT && Holds(ConvTable()[k].kind, v)
    ensures LineWith(k, v, d) + next
            == d.NameOf(k) + ([','] + (Format(ConvTable()[k].kind, v) + (d.end + next)))
  {
    hide ConvTable, Holds, Format, Dress.NameOf;
  }

  lemma AroundComma(name: string, rest: string)
    ensures var s := name + ([','] + rest);
            |name| < |s| && s[..|name|] == name && s[|name| + 1..] == rest
  {
  }

  /** Lines one after the other. */
  function Lines(lines: seq<string>): string {
    if lines == [] then "" else lines[0] + ("\n" + Lines(lines[1..]))
  }

  /** A line that is passed over: what stands before its first comma is no parameter's name; or it has
      no comma at all, and others follow. */
  ghost predicate PassedOver(line: string) {
    && '\n' !in line
    && (',' in line ==> Describes(Missing, ConvTable(), line[..Span(line, ',')]))
  }

  /** Such a line changes nothing, and nothing of the next line is used up. */
  lemma UnknownLineIsSkipped(line: string, rest: string, block: seq<Value>, visited: seq<bool>)
    requires IsBlock(block) && |visited| == COUNT && PassedOver(line) && (',' in line || ',' in rest)
    ensures Parse(line + ("\n" + rest), block, visited) == Parse(rest, block, visited)
  {
    hide Holds, ConvTable, Trails, ParseValue, Describes, Lookup, Parse;
    var s := line + ("\n" + rest);
    SpanOf(line, '\n', rest);
    assert s[|line| + 1..] == rest;
    FirstCommaIn(line, rest);
    var key := s[..Span(s, ',')];
    if ',' in line {
      assert key == line[..Span(line, ',')];
    } else {
      assert key[|line|] == '\n';
      LineFeedIsMissing(key);
    }
    LookupIsUnique(Lookup(ConvTable(), key), Missing, ConvTable(), key);
    SkippedGoesOn(s, rest, block, visited);
  }

  lemma SkippedGoesOn(s: string, rest: string, block: seq<Value>, visited: seq<bool>)
    requires s != "" && IsBlock(block) && |visited| == COUNT && ReadLine(s, block) == Skip(rest)
    ensures Parse(s, block, visited) == Parse(rest, block, visited)
  {
    hide ReadLine, ConvTable, Holds;
  }

  lemma FirstCommaIn(line: string, rest: string)
    requires '\n' !in line && (',' in line || ',' in rest)
    ensures var s := line + ("\n" + rest);
            && Span(s, ',') < |s|
            && (if ',' in line then Span(s, ',') == Span(line, ',') < |line| else |line| < Span(s, ','))
  {
    var s := line + ("\n" + rest);
    var n := Span(s, ',');
    if ',' in line {
      SameSpan(line, "\n" + rest, ',');
    } else {
      assert forall i :: 0 <= i <= |line| ==> s[i] != ',';
      assert ',' in s;
      assert s[..|s|] == s;
    }
  }

  lemma {:induction false} SameSpan(s: string, more: string, c: char)
    requires c in s
    ensures Span(s + more, c) == Span(s, c) < |s|
  {
    if s[0] != c {
      SameSpan(s[1..], more, c);
      assert (s + more)[1..] == s[1..] + more;
    }
  }

  /** In particular: a name that matches no entry, a comma, and anything. */
  lemma UnknownNameIsSkipped(name: string, junk: string, rest: string, block: seq<Value>, visited: seq<bool>)
    requires IsBlock(block) && |visited| == COUNT
    requires Plain(name) && '\n' !in junk && Describes(Missing, ConvTable(), name)
    ensures Parse(name + ([','] + junk) + ("\n" + rest), block, visited) == Parse(rest, block, visited)
  {
    hide Parse, ConvTable, Holds, Describes, Span;
    SpanOf(name, ',', junk);
    AroundComma(name, junk);
    UnknownLineIsSkipped(name + ([','] + junk), rest, block, visited);
  }

  lemma {:induction false} LinesAreSkipped(lines: seq<string>, rest: string, block: seq<Value>, visited: seq<bool>)
    requires IsBlock(block) && |visited| == COUNT && ',' in rest
    requires forall i :: 0 <= i < |lines| ==> PassedOver(lines[i])
    ensures Parse(Lines(lines) + rest, block, visited) == Parse(rest, block, visited)
  {
    hide Holds, ConvTable, Parse, PassedOver;
    if lines == [] {
      assert Lines(lines) + rest == rest;
    } else {
      LinesAreSkipped(lines[1..], rest, block, visited);
      assert Lines(lines) + rest == lines[0] + ("\n" + (Lines(lines[1..]) + rest));
      UnknownLineIsSkipped(lines[0], Lines(lines[1..]) + rest, block, visited);
    }
  }

  /** The trims come last, and are the only parameter of their kind. */
  lemma TrimsAreLast(k: nat)
    requires k < COUNT
    ensures ConvTable()[k].kind == Trims <==> k == COUNT - 1
  {
  }

  /** The fields when the first `k` parameters have been read. */
  ghost function Mixed(block: seq<Value>, held: seq<Value>, k: nat): seq<Value>
    requires |block| == |held| == COUNT && k <= COUNT
  {
    block[..k] + held[k..]
  }

  ghost function Seen(visited: seq<bool>, k: nat): seq<bool>
    requires |visited| == COUNT && k <= COUNT
  {
    seq(k, i => true) + visited[k..]
  }

  /** What is still held when parameter `k` has been read. */
  ghost function Behind(block: seq<Value>, held: seq<Value>, k: nat): seq<Value>
    requires IsBlock(block) && IsBlock(held) && k < COUNT
  {
    MixedIsBlock(block, held, k);
    held[..k + 1] + Stored(Mixed(block, held, k), k, block[k])[k + 1..]
  }

  lemma MixedIsBlock(block: seq<Value>, held: seq<Value>, k: nat)
    requires IsBlock(block) && IsBlock(held) && k <= COUNT
    ensures IsBlock(Mixed(block, held, k))
  {
    hide Holds, ConvTable;
  }

  lemma StoredIsMixed(block: seq<Value>, held: seq<Value>, k: nat)
    requires IsBlock(block) && IsBlock(held) && k < COUNT
    ensures var behind := Behind(block, held, k);
            && IsBlock(Mixed(block, held, k)) && IsBlock(behind)
            && Stored(Mixed(block, held, k), k, block[k]) == Mixed(block, behind, k + 1)
            && (k + 1 < COUNT ==> TrimsOf(behind) == TrimsOf(held))
  {
    hide Holds, ConvTable, Stored;
    MixedIsBlock(block, held, k);
  }

  lemma LastIsRefused(block: seq<Value>, held: seq<Value>)
    requires IsBlock(block) && IsBlock(held)
    ensures var k := COUNT - 1;
            && ConvTable()[k].kind == Trims
            && Mixed(block, held, k)[k := ReadBack(Trims, block[k], held[k])]
               == block[k := Fields(Overwritten(TrimsOf(held), ReadablePrefix(TrimsOf(block))))]
  {
    TrimsAreLast(COUNT - 1);
    hide ConvTable, ReadablePrefix;
  }

  /** The text from parameter `k` on. */
  function DressedText(block: seq<Value>, dress: seq<Dress>, k: nat): string
    requires IsBlock(block) && |dress| == COUNT && k <= COUNT
    decreases COUNT - k
  {
    if k == COUNT then ""
    else Lines(dress[k].before) + (LineWith(k, block[k], dress[k]) + DressedText(block, dress, k + 1))
  }

  ghost predicate WellDressed(dress: seq<Dress>): (holds: bool)
    ensures holds ==> |dress| == COUNT
  {
    |dress| == COUNT && forall k :: 0 <= k < COUNT ==> dress[k].Valid(k)
  }

  lemma NextLineBegins(block: seq<Value>, dress: seq<Dress>, k: nat)
    requires IsBlock(block) && WellDressed(dress) && k < COUNT
    ensures DressedText(block, dress, k) != "" && !Trails(DressedText(block, dress, k)[0])
  {
    hide ConvTable, Holds, Format, Trails, SameLetters, PassedOver, IsSpace;
    var d, s := dress[k], DressedText(block, dress, k);
    if d.before != [] {
      assert s[0] == d.before[0][0];
    } else {
      LineBegins(k, block[k], d);
      assert s[0] == LineWith(k, block[k], d)[0];
    }
  }

  lemma LineBegins(k: nat, v: Value, d: Dress)
    requires k < COUNT && Holds(ConvTable()[k].kind, v) && d.Valid(k)
    ensures LineWith(k, v, d) != "" && !Trails(LineWith(k, v, d)[0])
    ensures ',' in LineWith(k, v, d)
  {
    hide ConvTable, Holds, Format, SameLetters, PassedOver, IsSpace, Dress.NameOf, Plain;
    var name := d.NameOf(k);
    NameBegins(k, name);
    assert LineWith(k, v, d)[0] == name[0] && LineWith(k, v, d)[|name|] == ',';
  }

  /** Serialising a block and parsing the text restores every parameter, whatever the fields held
      and whichever parameters had been seen before; the number behind the debug flags too, since
      it is read after them. So does any text that differs from it only in its dress: unknown lines
      before any of its lines, names in other letters, lines that end otherwise. A trim outside 0 to
      1.75 dB can be printed but not read: then all parameters before the trims are restored and the
      trims before the bad one, and parsing fails. */
  lemma {:induction false} DressedBlockParses(block: seq<Value>, dress: seq<Dress>, held: seq<Value>,
                                              visited: seq<bool>, k: nat)
    requires IsBlock(block) && IsBlock(held) && WellDressed(dress) && |visited| == COUNT && k <= COUNT
    ensures IsBlock(Mixed(block, held, k))
    ensures Parse(DressedText(block, dress, k), Mixed(block, held, k), Seen(visited, k))
            == if k == COUNT || Readable(TrimsOf(block)) then Outcome(block, Seen(visited, COUNT), None)
               else Outcome(block[COUNT - 1 := Fields(Overwritten(TrimsOf(held), ReadablePrefix(TrimsOf(block))))],
                            Seen(visited, COUNT - 1), Some(InvalidValue))
    decreases COUNT - k
  {
    hide Holds, Readable, ReadablePrefix, Overwritten, ConvTable, Stored, Parse, DressedText, WellDressed;
    var now := Mixed(block, held, k);
    assert IsBlock(now);
    if k == COUNT {
      assert now == block && false !in Seen(visited, COUNT);
      NoTextLeft(block, dress);
      NothingLeft(block, Seen(visited, COUNT));
    } else {
      TrimsAreLast(k);
      DressedLineParses(block, dress, now, Seen(visited, k), k);
      if k == COUNT - 1 && !Readable(TrimsOf(block)) {
        LastIsRefused(block, held);
      } else {
        StoredIsMixed(block, held, k);
        assert Seen(visited, k)[k := true] == Seen(visited, k + 1);
        DressedBlockParses(block, dress, Behind(block, held, k), visited, k + 1);
      }
    }
  }

  lemma NoTextLeft(block: seq<Value>, dress: seq<Dress>)
    requires IsBlock(block) && |dress| == COUNT
    ensures DressedText(block, dress, COUNT) == ""
  {
  }

  /** One parameter of the text. */
  lemma DressedLineParses(block: seq<Value>, dress: seq<Dress>, now: seq<Value>, visited: seq<bool>, k: nat)
    requires IsBlock(block) && IsBlock(now) && WellDressed(dress) && |visited| == COUNT && k < COUNT
    ensures Parse(DressedText(block, dress, k), now, visited)
            == if IsReadable(ConvTable()[k].kind, block[k]) then
                 Parse(DressedText(block, dress, k + 1), Stored(now, k, block[k]), visited[k := true])
               else Outcome(now[k := ReadBack(ConvTable()[k].kind, block[k], now[k])], visited, Some(InvalidValue))
  {
    hide Holds, IsReadable, ReadBack, ConvTable, ReadLine, LineWith, Lines, PassedOver, Stored, Parse,
      SameLetters, Trails, MayEnd, Dress.NameOf;
    if k + 1 < COUNT {
      NextLineBegins(block, dress, k + 1);
    } else {
      NoTextLeft(block, dress);
    }
    var next := DressedText(block, dress, k + 1);
    var line := LineWith(k, block[k], dress[k]);
    LineBegins(k, block[k], dress[k]);
    LinesAreSkipped(dress[k].before, line + next, now, visited);
    LineIsRead(k, block[k], dress[k], now, next);
    ReadGoesOn(line + next, now, visited);
  }

  lemma NothingLeft(block: seq<Value>, visited: seq<bool>)
    requires IsBlock(block) && |visited| == COUNT
    ensures Parse("", block, visited)
            == Outcome(block, visited, if false in visited then Some(MissingParameters) else None)
  {
  }

  lemma ReadGoesOn(s: string, block: seq<Value>, visited: seq<bool>)
    requires s != "" && IsBlock(block) && |visited| == COUNT
    ensures match ReadLine(s, block)
            case Read(i, v, rest) => Parse(s, block, visited) == Parse(rest, Stored(block, i, v), visited[i := true])
            case Bad(i, v) => Parse(s, block, visited) == Outcome(block[i := v], visited, Some(InvalidValue))
            case _ => true
  {
    hide ReadLine, ConvTable, Holds, Stored;
  }

  /** As it is printed. */
  lemma SerialisedBlockParses(block: seq<Value>, held: seq<Value>, visited: seq<bool>)
    requires IsBlock(block) && IsBlock(held) && |visited| == COUNT
    ensures Parse(TextFrom(block, 0), held, visited)
            == if Readable(TrimsOf(block)) then Outcome(block, Seen(visited, COUNT), None)
               else Outcome(block[COUNT - 1 := Fields(Overwritten(TrimsOf(held), ReadablePrefix(TrimsOf(block))))],
                            Seen(visited, COUNT - 1), Some(InvalidValue))
  {
    hide Parse, Holds, ConvTable, TextFrom, DressedText, Overwritten, Readable, ReadablePrefix;
    var dress := seq(COUNT, k => PLAIN);
    PlainIsWellDressed(dress);
    PlainText(block, dress, 0);
    DressedBlockParses(block, dress, held, visited, 0);
    assert Mixed(block, held, 0) == held && Seen(visited, 0) == visited;
  }

  lemma PlainIsValid(k: nat)
    requires k < COUNT
    ensures PLAIN.Valid(k)
  {
    hide ConvTable, ParameterMatch;
    MatchesItself(ConvTable()[k].name);
  }

  lemma PlainIsWellDressed(dress: seq<Dress>)
    requires |dress| == COUNT && forall k :: 0 <= k < COUNT ==> dress[k] == PLAIN
    ensures WellDressed(dress)
  {
    hide Dress.Valid;
    forall k | 0 <= k < COUNT
      ensures dress[k].Valid(k)
    {
      PlainIsValid(k);
    }
  }

  lemma {:induction false} PlainText(block: seq<Value>, dress: seq<Dress>, k: nat)
    requires IsBlock(block) && |dress| == COUNT && k <= COUNT
    requires forall i :: 0 <= i < COUNT ==> dress[i] == PLAIN
    ensures DressedText(block, dress, k) == TextFrom(block, k)
    decreases COUNT - k
  {
    hide ConvTable, Holds, LineWith;
    if k < COUNT {
      PlainText(block, dress, k + 1);
      assert "" + (Line(k, block[k]) + TextFrom(block, k + 1)) == TextFrom(block, k);
    }
  }

  /** Lines may also end in carriage return and line feed: the same file written on another system. */
  lemma CrlfIsAccepted(block: seq<Value>, dress: seq<Dress>, held: seq<Value>, visited: seq<bool>)
    requires IsBlock(block) && IsBlock(held) && |visited| == COUNT && Readable(TrimsOf(block))
    requires |dress| == COUNT && forall k :: 0 <= k < COUNT ==> dress[k] == Dress([], None, "\r\n")
    ensures Parse(DressedText(block, dress, 0), held, visited) == Outcome(block, Seen(visited, COUNT), None)
  {
    hide Parse, Holds, ConvTable, DressedText, Readable, ParameterMatch;
    forall k | 0 <= k < COUNT
      ensures dress[k].Valid(k)
    {
      MatchesItself(ConvTable()[k].name);
    }
    DressedBlockParses(block, dress, held, visited, 0);
    assert Mixed(block, held, 0) == held && Seen(visited, 0) == visited;
  }

  /** A text without a comma ends too early. */
  lemma NoCommaEndsTooEarly(s: string, block: seq<Value>, visited: seq<bool>)
    requires IsBlock(block) && |visited| == COUNT && s != "" && ',' !in s
    ensures Parse(s, block, visited) == Outcome(block, visited, Some(UnexpectedEnd))
  {
    hide ConvTable, Holds, ParseValue;
    assert Span(s, ',') == |s|;
  }

  /** A name that several entries begin with stops the parser. */
  lemma AmbiguousNameStops(name: string, rest: string, block: seq<Value>, visited: seq<bool>)
    requires IsBlock(block) && |visited| == COUNT && ',' !in name && Describes(Ambiguous, ConvTable(), name)
    ensures Parse(name + ([','] + rest), block, visited) == Outcome(block, visited, Some(DuplicatedName))
  {
    hide ConvTable, Holds, ParseValue, Describes, Lookup;
    SpanOf(name, ',', rest);
    AroundComma(name, rest);
    LookupIsUnique(Lookup(ConvTable(), name), Ambiguous, ConvTable(), name);
  }

  function TrimsOf(block: seq<Value>): (trims: seq<int>)
    requires IsBlock(block)
    ensures |trims| == TRIMS
  {
    TrimsAreLast(COUNT - 1);
    block[COUNT - 1].fields
  }

  lemma LastLineParses(s: string, held: seq<Value>, visited: seq<bool>, k: nat, v: Value)
    requires s != "" && IsBlock(held) && |visited| == COUNT && ReadLine(s, held) == Read(k, v, "")
    ensures k < COUNT && Holds(ConvTable()[k].kind, v)
    ensures Parse(s, held, visited)
            == Outcome(Stored(held, k, v), visited[k := true],
                       if false in visited[k := true] then Some(MissingParameters) else None)
  {
    hide Holds, ConvTable, ReadLine, Stored;
  }

  lemma LineIsNotEmpty(k: nat, v: Value)
    requires k < COUNT && Holds(ConvTable()[k].kind, v)
    ensures Line(k, v) != "" && Line(k, v) == LineWith(k, v, PLAIN)
  {
    hide ConvTable, Holds, Format;
  }

  lemma StoredIsOneChangeIff(k: nat, v: Value, held: seq<Value>)
    requires IsBlock(held) && k < COUNT && Holds(ConvTable()[k].kind, v)
    ensures Stored(held, k, v) == held[k := v]
            <==> (k == DEBUG_FLAGS ==> held[k + 1] == SignOf(v))
  {
    if k == DEBUG_FLAGS {
      assert ConvTable()[k].kind == Hex;
      assert Stored(held, k, v)[k + 1] == SignOf(v);
    }
  }

  /** The flags are never cleared: once a whole file has been parsed, a file with a single
      parameter is accepted; for a first file it is not. It changes nothing but this parameter,
      unless it is the debug flags, which leave the number behind them alone only if that is zero
      already, or -1 for flags with the highest bit set. */
  lemma SingleLineParses(k: nat, v: Value, held: seq<Value>, visited: seq<bool>)
    requires IsBlock(held) && |visited| == COUNT && k < COUNT
    requires Holds(ConvTable()[k].kind, v) && IsReadable(ConvTable()[k].kind, v)
    ensures Parse(Line(k, v), held, visited)
            == Outcome(Stored(held, k, v), visited[k := true],
                       if false in visited[k := true] then Some(MissingParameters) else None)
    ensures Stored(held, k, v) == held[k := v]
            <==> (k == DEBUG_FLAGS ==> held[k + 1] == SignOf(v))
  {
    hide *;
    LineIsNotEmpty(k, v);
    StoredIsOneChangeIff(k, v, held);
    PlainIsValid(k);
    LineIsRead(k, v, PLAIN, held, "");
    assert Line(k, v) + "" == Line(k, v);
    LastLineParses(Line(k, v), held, visited, k, v);
  }

  lemma CheckedAreNumbers(block: seq<Value>)
    requires IsBlock(block)
    ensures forall i :: MMCM_FIRST <= i <= BUTTON_ROTATION ==> block[i].Number?
  {
    assert forall i :: MMCM_FIRST <= i <= BUTTON_ROTATION ==> ConvTable()[i].kind == Int;
  }

  /** A rotation of 90 degrees counts as none. */
  function Rotated(block: seq<Value>): (r: seq<Value>)
    requires IsBlock(block)
    ensures |r| == COUNT
  {
    CheckedAreNumbers(block);
    if block[BUTTON_ROTATION].number == 90 then block[BUTTON_ROTATION := Number(0)] else block
  }

  predicate Sensible(block: seq<Value>)
    requires IsBlock(block)
  {
    CheckedAreNumbers(block);
    && block[BUTTON_ROTATION].number in {0, 45, 90}
    && forall i :: MMCM_FIRST <= i < MMCM_FIRST + 3 ==> 1000 <= block[i].number
  }

  lemma ParseKeepsBlocks(s: string, block: seq<Value>, visited: seq<bool>)
    requires IsBlock(block) && |visited| == COUNT
    ensures IsBlock(Parse(s, block, visited).block) && |Parse(s, block, visited).visited| == COUNT
    decreases |s|
  {
    hide Holds, ConvTable;
    if s != "" {
      match ReadLine(s, block)
      case Stop(_) =>
      case Skip(rest) => ParseKeepsBlocks(rest, block, visited);
      case Bad(_, _) =>
      case Read(i, v, rest) => ParseKeepsBlocks(rest, Stored(block, i, v), visited[i := true]);
    }
  }

  /** What taking a file comes to: whether it is accepted, the fields, and the flags. */
  function FileOutcome(text: string, block: seq<Value>, visited: seq<bool>): (bool, seq<Value>, seq<bool>)
    requires IsBlock(block) && |visited| == COUNT
  {
    ParseKeepsBlocks(text, block, visited);
    var o := Parse(text, block, visited);
    if o.problem != None || text == "" then (false, o.block, o.visited)
    else (Sensible(o.block), Rotated(o.block), o.visited)
  }

  /** The file of saved parameters is taken again, whatever was in force before: accepted if and only if
      the button rotation is 0, 45 or 90 degrees and none of the three clock settings is below 1000;
      and every parameter is as it was saved, except that a rotation of 90 becomes none. */
  lemma SavedFileIsAcceptedIff(block: seq<Value>, held: seq<Value>, visited: seq<bool>)
    requires IsBlock(block) && IsBlock(held) && |visited| == COUNT && Readable(TrimsOf(block))
    ensures block[22].Number? && block[23].Number? && block[24].Number? && block[25].Number?
    ensures var (accepted, fields, flags) := FileOutcome(TextFrom(block, 0), held, visited);
            var rotation := block[25].number;
            && (accepted <==>
                  && (rotation == 0 || rotation == 45 || rotation == 90)
                  && 1000 <= block[22].number && 1000 <= block[23].number && 1000 <= block[24].number)
            && fields == (if rotation == 90 then block[25 := Number(0)] else block)
            && flags == seq(COUNT, i => true)
  {
    hide Parse, ConvTable, Holds, TextFrom, Readable, Overwritten, ReadablePrefix;
    CheckedAreNumbers(block);
    SerialisedBlockParses(block, held, visited);
    TextIsNotEmpty(block);
    assert Seen(visited, COUNT) == seq(COUNT, i => true);
  }

  lemma TextIsNotEmpty(block: seq<Value>)
    requires IsBlock(block)
    ensures TextFrom(block, 0) != ""
  {
    hide ConvTable, Holds, Line;
    LineIsNotEmpty(0, block[0]);
  }

  lemma NextText(text: string, block: seq<Value>, i: nat)
    requires IsBlock(block) && i < COUNT
    ensures text + Line(i, block[i]) + TextFrom(block, i + 1) == text + TextFrom(block, i)
  {
    hide Line, ConvTable, Holds;
  }

  lemma NoText(text: string, block: seq<Value>)
    requires IsBlock(block)
    ensures text + TextFrom(block, COUNT) == text
  {
    hide Line, ConvTable, Holds;
  }

  class ParameterFile {
    var block: seq<Value>
    /** Which parameters any file has set so far. */
    var visited: seq<bool>

    ghost predicate Valid()
      reads this
    {
      IsBlock(block) && |visited| == COUNT
    }

    constructor (defaults: seq<Value>)
      requires IsBlock(defaults)
      ensures Valid() && block == defaults && visited == seq(COUNT, i => false)
    {
      block := defaults;
      visited := seq(COUNT, i => false);
    }

    method GetTable() returns (text: string)
      requires Valid()
      ensures text == TextFrom(block, 0)
    {
      hide Line, ConvTable, Holds, TextFrom;
      text := "";
      assert text + TextFrom(block, 0) == TextFrom(block, 0);
      for i := 0 to COUNT
        invariant text + TextFrom(block, i) == TextFrom(block, 0)
      {
        NextText(text, block, i);
        text := text + Line(i, block[i]);
      }
      NoText(text, block);
    }

    /** Sets every field the text names, up to the first problem; of bytes or trims that are
        refused, those that were read before stay. */
    method ParseTable(text: string) returns (problem: Option<Problem>)
      requires Valid()
      modifies this
      ensures Valid() && Outcome(block, visited, problem) == old(Parse(text, block, visited))
    {
      hide ReadLine, ConvTable, Holds, Stored;
      var s := text;
      ghost var all := Parse(text, block, visited);
      ParseKeepsBlocks(text, block, visited);
      while s != ""
        invariant Valid() && Parse(s, block, visited) == all
        decreases |s|
      {
        match ReadLine(s, block)
        case Stop(p) =>
          return Some(p);
        case Skip(rest) =>
          s := rest;
        case Bad(i, v) =>
          block := block[i := v];
          return Some(InvalidValue);
        case Read(i, v, rest) =>
          block := Stored(block, i, v);
          visited := visited[i := true];
          s := rest;
      }
      return if false in visited then Some(MissingParameters) else None;
    }

    /** Takes a parameter file: it is accepted if it can be parsed and its values make sense. */
    method SetTable(text: string) returns (accepted: bool)
      requires Valid()
      modifies this
      ensures (accepted, block, visited) == old(FileOutcome(text, block, visited))
    {
      hide Parse, ConvTable, Holds;
      var problem := ParseTable(text);
      CheckedAreNumbers(block);
      if problem != None || text == "" {
        return false;
      }
      if block[BUTTON_ROTATION].number == 90 {
        block := block[BUTTON_ROTATION := Number(0)];
      }
      if block[BUTTON_ROTATION].number != 0 && block[BUTTON_ROTATION].number != 45 {
        return false;
      }
      if block[22].number < 1000 || block[23].number < 1000 || block[24].number < 1000 {
        return false;
      }
      return true;
    }
  }
}
