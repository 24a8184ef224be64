/** The table of parameter names and how names are looked up (software/src/systemParameters.c:169-429). */
module ParameterNames {
  import opened NumberText

  /** How a parameter is printed and read. */
  datatype Kind = Mac | Ipv4 | Int | Int4 | Hex | Float | Trims

  datatype Conv = Conv(name: string, kind: Kind)

  function ConvTable(): (t: seq<Conv>)
    ensures |t| == COUNT
  {
    [
      Conv("Ethernet Address", Mac), Conv("Use DHCP", Int), Conv("IP Address", Ipv4),
      Conv("IP Netmask", Ipv4), Conv("IP Gateway", Ipv4), Conv("User MGT ref offset", Int),
      Conv("Startup debug flags", Hex), Conv("PLL RF divisor", Int), Conv("PLL multiplier", Int),
      Conv("Single pass?", Int), Conv("Single pass event", Int), Conv("ADC clocks per heartbeat", Int),
      Conv("EVR clocks per fast acquisition", Int), Conv("EVR clocks per slow acquisition", Int),
      Conv("ADC for button ABCD", Int4), Conv("X calibration (mm p.u.)", Float),
      Conv("Y calibration (mm p.u.)", Float), Conv("Q calibration (p.u.)", Float),
      Conv("RFDC ADC Sampling Rate (Hz)", Float), Conv("RFDC NCO ADC Frequency (Hz)", Float),
      Conv("RFDC DAC Sampling Rate (Hz)", Float), Conv("RFDC NCO DAC Frequency (Hz)", Float),
      Conv("RFDC MMCM DivClk Divider", Int), Conv("RFDC MMCM Clk Multiplier", Int),
      Conv("RFDC MMCM Clk0 Divider", Int), Conv("Button rotation (0 or 45)", Int),
      Conv("AFE attenuator trims (dB)", Trims)
    ]
  }

  const COUNT := 27

  function Lower(c: char): char {
    if 'A' <= c <= 'Z' then 'a' + (c - 'A') else c
  }

  /** strncasecmp: the first |match| characters of the name agree with `match`, whatever the case. */
  predicate ParameterMatch(name: string, key: string) {
    |key| <= |name| && forall p :: 0 <= p < |key| ==> Lower(name[p]) == Lower(key[p])
  }

  datatype Found = At(index: nat) | Missing | Ambiguous

  /** The meaning of a lookup. */
  ghost predicate Describes(f: Found, conv: seq<Conv>, key: string) {
    match f
    case At(i) =>
      && i < |conv| && ParameterMatch(conv[i].name, key)
      && forall j :: 0 <= j < |conv| && j != i ==> !ParameterMatch(conv[j].name, key)
    case Missing => forall j :: 0 <= j < |conv| ==> !ParameterMatch(conv[j].name, key)
    case Ambiguous =>
      exists i, j :: 0 <= i < j < |conv| && ParameterMatch(conv[i].name, key) && ParameterMatch(conv[j].name, key)
  }

  method SearchConvName(conv: seq<Conv>, key: string) returns (f: Found)
    ensures Describes(f, conv, key)
  {
    hide ParameterMatch;
    var matched := -1;
    for i := 0 to |conv|
      invariant -1 <= matched < i
      invariant 0 <= matched ==> ParameterMatch(conv[matched].name, key)
      invariant forall j :: 0 <= j < i && j != matched ==> !ParameterMatch(conv[j].name, key)
    {
      if ParameterMatch(conv[i].name, key) {
        if 0 <= matched {
          return Ambiguous;
        }
        matched := i;
      }
    }
    return if matched < 0 then Missing else At(matched);
  }

  /** The lookup as a function. */
  function Lookup(conv: seq<Conv>, key: string): (f: Found)
    ensures Describes(f, conv, key)
  {
    if conv == [] then Missing
    else
      var n := |conv| - 1;
      assert conv[..n] < conv;
      var here := ParameterMatch(conv[n].name, key);
      match Lookup(conv[..n], key)
      case Ambiguous => Ambiguous
      case At(i) => if here then Ambiguous else At(i)
      case Missing => if here then At(n) else Missing
  }

  lemma LookupIsUnique(f: Found, g: Found, conv: seq<Conv>, key: string)
    requires Describes(f, conv, key) && Describes(g, conv, key)
    ensures f == g
  {
    hide ParameterMatch;
  }

  /** Which entry a name can belong to, decided by a few of its characters. */
  function Branch(s: string): nat {
    match Lower(CharAt(s, 0))
    case 'e' => if Lower(CharAt(s, 1)) == 't' then 0 else if Lower(CharAt(s, 15)) == 'f' then 12 else 13
    case 'u' => if Lower(CharAt(s, 3)) == ' ' then 1 else 5
    case 'i' => if Lower(CharAt(s, 3)) == 'a' then 2 else if Lower(CharAt(s, 3)) == 'n' then 3 else 4
    case 's' => if Lower(CharAt(s, 1)) == 't' then 6 else if Lower(CharAt(s, 11)) == '?' then 9 else 10
    case 'p' => if Lower(CharAt(s, 4)) == 'r' then 7 else 8
    case 'a' => if Lower(CharAt(s, 1)) == 'f' then 26 else if Lower(CharAt(s, 4)) == 'c' then 11 else 14
    case 'x' => 15
    case 'y' => 16
    case 'q' => 17
    case 'b' => 25
    case 'r' =>
      if Lower(CharAt(s, 5)) == 'a' then 18
      else if Lower(CharAt(s, 5)) == 'd' then 20
      else if Lower(CharAt(s, 5)) == 'n' then (if Lower(CharAt(s, 9)) == 'a' then 19 else 21)
      else if Lower(CharAt(s, 10)) == 'd' then 22
      else if Lower(CharAt(s, 13)) == '0' then 24 else 23
    case _ => COUNT
  }

  /** A name of entry `i` is long enough for its branch, which leads to the entry. */
  predicate LeadsBack(name: string, i: nat) {
    && Branch(name) == i
    && 8 <= |name|
    && (i in {9, 10, 12, 13, 19, 21, 22, 23, 24} ==> 12 <= |name|)
    && (i in {12, 13, 22, 23, 24} ==> 16 <= |name|)
  }

  lemma EveryNameLeadsBack(i: nat)
    requires i < COUNT
    ensures LeadsBack(ConvTable()[i].name, i)
  {
    hide LeadsBack;
    NamesFrom0();
    NamesFrom3();
    NamesFrom6();
    NamesFrom9();
    NamesFrom12();
    NamesFrom15();
    NamesFrom18();
    NamesFrom21();
    NamesFrom24();
  }

  lemma NamesFrom0()
    ensures LeadsBack("Ethernet Address", 0)
    ensures LeadsBack("Use DHCP", 1)
    ensures LeadsBack("IP Address", 2)
  {
  }

  lemma NamesFrom3()
    ensures LeadsBack("IP Netmask", 3)
    ensures LeadsBack("IP Gateway", 4)
    ensures LeadsBack("User MGT ref offset", 5)
  {
  }

  lemma NamesFrom6()
    ensures LeadsBack("Startup debug flags", 6)
    ensures LeadsBack("PLL RF divisor", 7)
    ensures LeadsBack("PLL multiplier", 8)
  {
  }

  lemma NamesFrom9()
    ensures LeadsBack("Single pass?", 9)
    ensures LeadsBack("Single pass event", 10)
    ensures LeadsBack("ADC clocks per heartbeat", 11)
  {
  }

  lemma NamesFrom12()
    ensures LeadsBack("EVR clocks per fast acquisition", 12)
    ensures LeadsBack("EVR clocks per slow acquisition", 13)
    ensures LeadsBack("ADC for button ABCD", 14)
  {
  }

  lemma NamesFrom15()
    ensures LeadsBack("X calibration (mm p.u.)", 15)
    ensures LeadsBack("Y calibration (mm p.u.)", 16)
    ensures LeadsBack("Q calibration (p.u.)", 17)
  {
  }

  lemma NamesFrom18()
    ensures LeadsBack("RFDC ADC Sampling Rate (Hz)", 18)
    ensures LeadsBack("RFDC NCO ADC Frequency (Hz)", 19)
    ensures LeadsBack("RFDC DAC Sampling Rate (Hz)", 20)
  {
  }

  lemma NamesFrom21()
    ensures LeadsBack("RFDC NCO DAC Frequency (Hz)", 21)
    ensures LeadsBack("RFDC MMCM DivClk Divider", 22)
    ensures LeadsBack("RFDC MMCM Clk Multiplier", 23)
  {
  }

  lemma NamesFrom24()
    ensures LeadsBack("RFDC MMCM Clk0 Divider", 24)
    ensures LeadsBack("Button rotation (0 or 45)", 25)
    ensures LeadsBack("AFE attenuator trims (dB)", 26)
  {
  }

  predicate Plain(s: string) {
    forall i :: 0 <= i < |s| ==> s[i] !in {',', '\n'}
  }

  lemma NamesArePlain(i: nat)
    requires i < COUNT
    ensures Plain(ConvTable()[i].name)
  {
    hide Plain;
    PlainFrom0();
    PlainFrom2();
    PlainFrom4();
    PlainFrom6();
    PlainFrom8();
    PlainFrom10();
    PlainFrom12();
    PlainFrom14();
    PlainFrom16();
    PlainFrom18();
    PlainFrom20();
    PlainFrom22();
    PlainFrom24();
    PlainFrom26();
  }

  lemma PlainFrom0()
    ensures Plain("Ethernet Address")
    ensures Plain("Use DHCP")
  {
  }

  lemma PlainFrom2()
    ensures Plain("IP Address")
    ensures Plain("IP Netmask")
  {
  }

  lemma PlainFrom4()
    ensures Plain("IP Gateway")
    ensures Plain("User MGT ref offset")
  {
  }

  lemma PlainFrom6()
    ensures Plain("Startup debug flags")
    ensures Plain("PLL RF divisor")
  {
  }

  lemma PlainFrom8()
    ensures Plain("PLL multiplier")
    ensures Plain("Single pass?")
  {
  }

  lemma PlainFrom10()
    ensures Plain("Single pass event")
    ensures Plain("ADC clocks per heartbeat")
  {
  }

  lemma PlainFrom12()
    ensures Plain("EVR clocks per fast acquisition")
    ensures Plain("EVR clocks per slow acquisition")
  {
  }

  lemma PlainFrom14()
    ensures Plain("ADC for button ABCD")
    ensures Plain("X calibration (mm p.u.)")
  {
  }

  lemma PlainFrom16()
    ensures Plain("Y calibration (mm p.u.)")
    ensures Plain("Q calibration (p.u.)")
  {
  }

  lemma PlainFrom18()
    ensures Plain("RFDC ADC Sampling Rate (Hz)")
    ensures Plain("RFDC NCO ADC Frequency (Hz)")
  {
  }

  lemma PlainFrom20()
    ensures Plain("RFDC DAC Sampling Rate (Hz)")
    ensures Plain("RFDC NCO DAC Frequency (Hz)")
  {
  }

  lemma PlainFrom22()
    ensures Plain("RFDC MMCM DivClk Divider")
    ensures Plain("RFDC MMCM Clk Multiplier")
  {
  }

  lemma PlainFrom24()
    ensures Plain("RFDC MMCM Clk0 Divider")
    ensures Plain("Button rotation (0 or 45)")
  {
  }

  lemma PlainFrom26()
    ensures Plain("AFE attenuator trims (dB)")
  {
  }

  /** A full name that matches another entry's name would lead to the same branch. */
  lemma SameBranch(s: string, name: string, i: nat)
    requires ParameterMatch(name, s) && LeadsBack(s, i) && i < COUNT
    ensures Branch(name) == i
  {
    hide Lower;
  }

  /** A capital and a small letter of the same kind. */
  predicate SameLetter(a: char, b: char) {
    a == b || ('A' <= a <= 'Z' && b as int == a as int + 32) || ('A' <= b <= 'Z' && a as int == b as int + 32)
  }

  lemma SameLetterIff(a: char, b: char)
    ensures Lower(a) == Lower(b) <==> SameLetter(a, b)
  {
  }

  /** The same name in letters of any case. */
  predicate SameLetters(name: string, key: string) {
    |key| == |name| && forall p :: 0 <= p < |key| ==> SameLetter(name[p], key[p])
  }

  lemma SameLettersMatch(name: string, key: string)
    requires SameLetters(name, key)
    ensures ParameterMatch(name, key) && forall n :: Lower(CharAt(key, n)) == Lower(CharAt(name, n))
  {
    forall a, b
      ensures Lower(a) == Lower(b) <==> SameLetter(a, b)
    {
      SameLetterIff(a, b);
    }
    hide Lower;
  }

  lemma SameLettersLead(name: string, key: string, i: nat)
    requires SameLetters(name, key) && LeadsBack(name, i) && Plain(name)
    ensures LeadsBack(key, i) && Plain(key)
  {
    SameLettersMatch(name, key);
    assert forall c :: Lower(c) in {',', '\n'} ==> Lower(c) == c;
    hide Lower;
  }

  /** Every full parameter name, in letters of any case, is found as its own entry and no other. */
  lemma FullNameFindsItsEntry(i: nat, key: string, f: Found)
    requires i < COUNT && SameLetters(ConvTable()[i].name, key) && Describes(f, ConvTable(), key)
    ensures f == At(i)
  {
    hide Branch, ParameterMatch, LeadsBack, Plain;
    EveryNameLeadsBack(i);
    NamesArePlain(i);
    SameLettersLead(ConvTable()[i].name, key, i);
    SameLettersMatch(ConvTable()[i].name, key);
    forall j | 0 <= j < COUNT && j != i
      ensures !ParameterMatch(ConvTable()[j].name, key)
    {
      EveryNameLeadsBack(j);
      if ParameterMatch(ConvTable()[j].name, key) {
        SameBranch(key, ConvTable()[j].name, i);
        OneBranch(ConvTable()[j].name, j);
      }
    }
    LookupIsUnique(f, At(i), ConvTable(), key);
  }

  lemma OneBranch(name: string, i: nat)
    requires LeadsBack(name, i)
    ensures Branch(name) == i
  {
  }

  /** What holds a line feed is the name of nothing. */
  lemma LineFeedIsMissing(key: string)
    requires '\n' in key
    ensures Describes(Missing, ConvTable(), key)
  {
    hide Lower;
    forall j | 0 <= j < COUNT
      ensures !ParameterMatch(ConvTable()[j].name, key)
    {
      NamesArePlain(j);
      LineFeedDiffers(ConvTable()[j].name, key);
    }
  }

  lemma LineFeedDiffers(name: string, key: string)
    requires '\n' in key && '\n' !in name
    ensures !ParameterMatch(name, key)
  {
    var p :| 0 <= p < |key| && key[p] == '\n';
    assert p < |name| ==> Lower(name[p]) != Lower(key[p]);
  }

  /** Names begin with a letter. */
  lemma NameBegins(i: nat, key: string)
    requires i < COUNT && SameLetters(ConvTable()[i].name, key)
    ensures 8 <= |key| && !IsSpace(key[0]) && key[0] != ','
    ensures Plain(key)
  {
    hide SameLetters, LeadsBack, Plain;
    EveryNameLeadsBack(i);
    NamesArePlain(i);
    SameLettersLead(ConvTable()[i].name, key, i);
    FirstLetter(key, i);
  }

  lemma FirstLetter(name: string, i: nat)
    requires LeadsBack(name, i) && i < COUNT
    ensures 8 <= |name| && !IsSpace(name[0]) && name[0] != ','
  {
  }

  lemma MatchesItself(s: string)
    ensures SameLetters(s, s)
  {
  }
}
