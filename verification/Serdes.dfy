/** Parameter values as text (software/src/serdes.c, systemParameters.c:123-163). */
module Serdes {
  import opened Common
  import opened NumberText
  import opened CNumbers

  /* Limits of a 32-bit int. */
  const INT_MAX := 0x7FFF_FFFF

  predicate IsInt(v: int) {
    -INT_MAX - 1 <= v <= INT_MAX
  }

  /** A value ends at a comma or at the end of its line. */
  predicate EndsValue(c: char) {
    c == ',' || c == '\r' || c == '\n'
  }

  predicate AllBytes(fields: seq<int>) {
    forall i :: 0 <= i < |fields| ==> 0 <= fields[i] < 0x100
  }

  /** Fields of 0 to 255 with a separator between them; a field without digits counts as 0. */
  function ParseFields(s: string, base: nat, sep: char, count: nat): (r: Option<Parsed<seq<int>>>)
    requires 2 <= base <= 16 && 0 < count && sep != '\0'
    ensures r.Some? ==> r.value.length <= |s| && |r.value.value| == count && AllBytes(r.value.value)
    decreases count
  {
    var x := Strtol(s, base);
    if x.value < 0 || 0xFF < x.value then None
    else if count == 1 then Some(Parsed([x.value], x.length))
    else if CharAt(s, x.length) != sep then None
    else Continued([x.value], x.length + 1, ParseFields(s[x.length + 1..], base, sep, count - 1))
  }

  /** The fields that are read before the text ends or does not go on as it should. */
  function FieldsRead(s: string, base: nat, sep: char, count: nat): (r: seq<int>)
    requires 2 <= base <= 16 && 0 < count && sep != '\0'
    ensures |r| <= count && AllBytes(r)
    decreases count
  {
    var x := Strtol(s, base);
    if x.value < 0 || 0xFF < x.value then []
    else if count == 1 || CharAt(s, x.length) != sep then [x.value]
    else [x.value] + FieldsRead(s[x.length + 1..], base, sep, count - 1)
  }

  lemma {:induction false} AcceptedFieldsRead(s: string, base: nat, sep: char, count: nat)
    requires 2 <= base <= 16 && 0 < count && sep != '\0' && ParseFields(s, base, sep, count).Some?
    ensures FieldsRead(s, base, sep, count) == ParseFields(s, base, sep, count).value.value
    decreases count
  {
    hide Strtol;
    var x := Strtol(s, base);
    if 1 < count && CharAt(s, x.length) == sep {
      AcceptedFieldsRead(s[x.length + 1..], base, sep, count - 1);
    }
  }

  /** What has been read, in front of what is yet to be read. */
  function Continued(got: seq<int>, used: nat, rest: Option<Parsed<seq<int>>>): Option<Parsed<seq<int>>> {
    match rest
    case None => None
    case Some(p) => Some(Parsed(got + p.value, used + p.length))
  }

  /** Fields are printed in one of two ways: two capital hexadecimal digits, or plain decimal. */
  function PrintedField(v: nat, base: nat): string
    requires base == 10 || base == 16
  {
    if base == 16 then Padded(v, 16, 'A', 2) else Digits(v, 10, 'a')
  }

  function PrintedFields(fields: seq<int>, base: nat, sep: char): string
    requires AllBytes(fields) && fields != [] && (base == 10 || base == 16)
  {
    if |fields| == 1 then PrintedField(fields[0], base)
    else PrintedField(fields[0], base) + ([sep] + PrintedFields(fields[1..], base, sep))
  }

  lemma FieldReads(v: nat, base: nat, rest: string)
    requires v < 0x100 && (base == 10 || base == 16)
    requires rest != [] ==> !IsDigit(rest[0], 16) && rest[0] != 'x' && rest[0] != 'X'
    ensures Strtol(PrintedField(v, base) + rest, base) == Parsed(v, |PrintedField(v, base)|)
    ensures 0 < |PrintedField(v, base)|
  {
    hide Strtol, Digits, Padded, Value;
    if base == 16 {
      assert Pow(16, 2) == 0x100 by {
        assert Pow(16, 1) == 16;
      }
      ValueOfPadded(v, 16, 'A', 2);
    } else {
      ValueOfDigits(v, 10, 'a');
    }
    StrtolReads(PrintedField(v, base), rest, base);
  }

  lemma FieldIsRead(v: nat, base: nat, sep: char, tail: string, count: nat)
    requires v < 0x100 && (base == 10 || base == 16) && (sep == ':' || sep == '.') && 0 < count
    ensures var n := |PrintedField(v, base)|;
            ParseFields(PrintedField(v, base) + ([sep] + tail), base, sep, count + 1)
            == Continued([v], n + 1, ParseFields(tail, base, sep, count))
  {
    hide Strtol, PrintedField, Continued;
    FieldReads(v, base, [sep] + tail);
    var n := |PrintedField(v, base)|;
    var s := PrintedField(v, base) + ([sep] + tail);
    assert s[n] == sep && s[n + 1..] == tail;
  }

  lemma LastFieldIsRead(v: nat, base: nat, sep: char, rest: string)
    requires v < 0x100 && (base == 10 || base == 16) && (sep == ':' || sep == '.')
    requires rest != [] && EndsValue(rest[0])
    ensures ParseFields(PrintedField(v, base) + rest, base, sep, 1)
            == Some(Parsed([v], |PrintedField(v, base)|))
  {
    hide Strtol, PrintedField;
    FieldReads(v, base, rest);
  }

  /** Printed fields are read back, all of their text and no more. */
  lemma {:induction false} FieldsRoundTrip(fields: seq<int>, base: nat, sep: char, rest: string)
    requires AllBytes(fields) && fields != [] && (base == 10 || base == 16) && (sep == ':' || sep == '.')
    requires rest != [] && EndsValue(rest[0])
    ensures ParseFields(PrintedFields(fields, base, sep) + rest, base, sep, |fields|)
            == Some(Parsed(fields, |PrintedFields(fields, base, sep)|))
    ensures 0 < |PrintedFields(fields, base, sep)|
  {
    hide ParseFields, PrintedField;
    var first, s := PrintedField(fields[0], base), PrintedFields(fields, base, sep) + rest;
    if |fields| == 1 {
      LastFieldIsRead(fields[0], base, sep, rest);
      assert [fields[0]] == fields;
      FieldIsNotEmpty(fields[0], base);
    } else {
      var tail := PrintedFields(fields[1..], base, sep) + rest;
      FieldsRoundTrip(fields[1..], base, sep, rest);
      FieldIsRead(fields[0], base, sep, tail, |fields| - 1);
      assert s == first + ([sep] + tail);
      assert [fields[0]] + fields[1..] == fields;
    }
  }

  lemma FieldIsNotEmpty(v: nat, base: nat)
    requires base == 10 || base == 16
    ensures 0 < |PrintedField(v, base)|
  {
  }

  /** Any decimal numbers, printed like bytes. */
  function PrintedNumbers(numbers: seq<nat>, sep: char): string
    requires numbers != []
  {
    if |numbers| == 1 then Digits(numbers[0], 10, 'a')
    else Digits(numbers[0], 10, 'a') + ([sep] + PrintedNumbers(numbers[1..], sep))
  }

  /** Numbers with points between them are an address if and only if there are as many as there should
      be at least, and each of these is a byte. */
  lemma {:induction false} NumbersAreFieldsIff(numbers: seq<nat>, count: nat, rest: string)
    requires numbers != [] && 0 < count && forall i :: 0 <= i < |numbers| ==> numbers[i] <= LONG_MAX
    requires rest != [] && EndsValue(rest[0])
    ensures ParseFields(PrintedNumbers(numbers, '.') + rest, 10, '.', count).Some?
            <==> count <= |numbers| && AllBytes(numbers[..count])
    decreases |numbers|
  {
    hide Strtol, Digits, PrintedNumbers, AllBytes;
    NumbersBegin(numbers, rest);
    var first := Digits(numbers[0], 10, 'a');
    var after := if |numbers| == 1 then rest else ['.'] + (PrintedNumbers(numbers[1..], '.') + rest);
    NumberReads(numbers[0], after);
    BehindFirst(first, after);
    FirstIsByte(numbers, count);
    if 1 < |numbers| {
      assert after[1..] == PrintedNumbers(numbers[1..], '.') + rest;
      if 1 < count {
        NumbersAreFieldsIff(numbers[1..], count - 1, rest);
      }
    }
  }

  lemma NumbersBegin(numbers: seq<nat>, rest: string)
    requires numbers != []
    ensures PrintedNumbers(numbers, '.') + rest
            == Digits(numbers[0], 10, 'a')
               + if |numbers| == 1 then rest else ['.'] + (PrintedNumbers(numbers[1..], '.') + rest)
  {
    hide Digits;
  }

  lemma NumberReads(v: nat, rest: string)
    requires v <= LONG_MAX && rest != [] && (EndsValue(rest[0]) || rest[0] == '.')
    ensures Strtol(Digits(v, 10, 'a') + rest, 10) == Parsed(v, |Digits(v, 10, 'a')|)
  {
    hide Strtol, Digits, Value;
    ValueOfDigits(v, 10, 'a');
    StrtolReads(Digits(v, 10, 'a'), rest, 10);
  }

  lemma BehindFirst(first: string, rest: string)
    requires rest != []
    ensures var s := first + rest;
            && CharAt(s, |first|) == rest[0] && |first| < |s| && s[|first| + 1..] == rest[1..]
  {
  }

  lemma FirstIsByte(numbers: seq<nat>, count: nat)
    requires numbers != [] && 0 < count
    ensures count == 1 ==> (AllBytes(numbers[..1]) <==> numbers[0] < 0x100)
    ensures 1 < count <= |numbers| ==>
              (AllBytes(numbers[..count]) <==> numbers[0] < 0x100 && AllBytes(numbers[1..][..count - 1]))
  {
    if 1 < count <= |numbers| {
      assert numbers[..count] == [numbers[0]] + numbers[1..][..count - 1];
    }
  }

  /** A hardware address: six bytes. */
  function FormatMAC(mac: seq<int>): string
    requires |mac| == 6 && AllBytes(mac)
  {
    PrintedFields(mac, 16, ':')
  }

  /** An IPv4 address, as the number its four bytes make, most significant first. */
  function Address(fields: seq<int>): (a: nat)
    requires AllBytes(fields)
    ensures a < Pow(0x100, |fields|)
  {
    if fields == [] then 0 else Address(fields[..|fields| - 1]) * 0x100 + fields[|fields| - 1]
  }

  function AddressFields(a: nat): (fields: seq<int>)
    ensures |fields| == 4 && AllBytes(fields)
  {
    [a / 0x100_0000 % 0x100, a / 0x1_0000 % 0x100, a / 0x100 % 0x100, a % 0x100]
  }

  lemma AddressOfFields(a: nat)
    requires a < U32
    ensures Address(AddressFields(a)) == a
  {
    var f := AddressFields(a);
    AddressOfFour(f[0], f[1], f[2], f[3]);
    assert f == [f[0], f[1], f[2], f[3]];
    hide *;
    FourBytes(a);
  }

  lemma FourBytes(a: nat)
    requires a < U32
    ensures ((a / 0x100_0000 % 0x100 * 0x100 + a / 0x1_0000 % 0x100) * 0x100 + a / 0x100 % 0x100) * 0x100 + a % 0x100
            == a
  {
    var b, c, d := a / 0x100, a / 0x1_0000, a / 0x100_0000;
    assert c == b / 0x100 && d == c / 0x100;
    assert a == b * 0x100 + a % 0x100;
    assert b == c * 0x100 + b % 0x100;
    assert c == d * 0x100 + c % 0x100;
  }

  lemma AddressOfFour(p: int, q: int, r: int, s: int)
    requires AllBytes([p, q, r, s])
    ensures Address([p, q, r, s]) == ((p * 0x100 + q) * 0x100 + r) * 0x100 + s
  {
    hide Pow;
    assert [p][..0] == [] && [p, q][..1] == [p] && [p, q, r][..2] == [p, q] && [p, q, r, s][..3] == [p, q, r];
    assert Address([]) == 0;
    assert Address([p]) == p;
    assert Address([p, q]) == p * 0x100 + q;
    assert Address([p, q, r]) == (p * 0x100 + q) * 0x100 + r;
  }

  function FormatIP(a: nat): string {
    PrintedFields(AddressFields(a), 10, '.')
  }

  /** Concretely: 192.168.1.128, and bytes in capital letters. */
  lemma PrintedForms()
    ensures Address([192, 168, 1, 128]) == 0xC0A8_0180
    ensures AddressFields(0xC0A8_0180) == [192, 168, 1, 128]
    ensures PrintedField(0xAB, 16) == "AB" && PrintedField(7, 16) == "07" && PrintedField(128, 10) == "128"
  {
    AddressOfFour(192, 168, 1, 128);
    hide Address;
    assert Padded(0, 16, 'A', 0) == "" && Padded(0xA, 16, 'A', 1) == "A" && Padded(0, 16, 'A', 1) == "0";
    assert Digits(1, 10, 'a') == "1" && Digits(12, 10, 'a') == "12";
  }

  /** A negative field is refused. */
  lemma NegativeIsRefused(v: nat, rest: string, count: nat)
    requires 0 < v <= LONG_MAX && 0 < count && rest != [] && (EndsValue(rest[0]) || rest[0] == '.')
    ensures ParseFields("-" + (Digits(v, 10, 'a') + rest), 10, '.', count) == None
  {
    hide Strtol, Digits, Value;
    ValueOfDigits(v, 10, 'a');
    StrtolReadsNegative(Digits(v, 10, 'a'), rest, 10);
  }

  lemma NothingRead(rest: Option<Parsed<seq<int>>>)
    ensures Continued([], 0, rest) == rest
  {
    if rest.Some? {
      assert [] + rest.value.value == rest.value.value;
    }
  }

  lemma Regroup(got: seq<int>, v: int, used: nat, more: nat, rest: Option<Parsed<seq<int>>>)
    ensures Continued(got, used, Continued([v], more, rest)) == Continued(got + [v], used + more, rest)
  {
    if rest.Some? {
      assert got + ([v] + rest.value.value) == got + [v] + rest.value.value;
    }
  }

  /** One field of a text, after `got`. */
  lemma FieldAt(str: string, cp: nat, base: nat, sep: char, count: nat, got: seq<int>)
    requires cp <= |str| && 2 <= base <= 16 && 0 < count && sep != '\0'
    ensures var x := Strtol(str[cp..], base);
            var endp := cp + x.length;
            && endp <= |str|
            && Continued(got, cp, ParseFields(str[cp..], base, sep, count))
               == (if x.value < 0 || 0xFF < x.value then None
                   else if count == 1 then Some(Parsed(got + [x.value], endp))
                   else if CharAt(str, endp) != sep then None
                   else Continued(got + [x.value], endp + 1, ParseFields(str[endp + 1..], base, sep, count - 1)))
  {
    hide Strtol;
    var x := Strtol(str[cp..], base);
    var endp := cp + x.length;
    assert CharAt(str, endp) == CharAt(str[cp..], x.length);
    if endp < |str| && 1 < count {
      assert str[cp..][x.length + 1..] == str[endp + 1..];
      Regroup(got, x.value, cp, x.length + 1, ParseFields(str[endp + 1..], base, sep, count - 1));
    }
  }

  lemma FieldReadAt(str: string, cp: nat, base: nat, sep: char, count: nat, got: seq<int>)
    requires cp <= |str| && 2 <= base <= 16 && 0 < count && sep != '\0'
    ensures var x := Strtol(str[cp..], base);
            var endp := cp + x.length;
            && endp <= |str|
            && got + FieldsRead(str[cp..], base, sep, count)
               == (if x.value < 0 || 0xFF < x.value then got
                   else if count == 1 || CharAt(str, endp) != sep then got + [x.value]
                   else got + [x.value] + FieldsRead(str[endp + 1..], base, sep, count - 1))
  {
    hide Strtol;
    var x := Strtol(str[cp..], base);
    var endp := cp + x.length;
    assert CharAt(str, endp) == CharAt(str[cp..], x.length);
    if endp < |str| && 1 < count {
      assert str[cp..][x.length + 1..] == str[endp + 1..];
      assert got + ([x.value] + FieldsRead(str[endp + 1..], base, sep, count - 1))
             == got + [x.value] + FieldsRead(str[endp + 1..], base, sep, count - 1);
    }
  }

  /** Reads the bytes into `val`, where those read before a failure stay. */
  method ParseMAC(str: string, val: array<int>) returns (length: Option<nat>)
    requires val.Length == 6
    modifies val
    ensures match ParseFields(str, 16, ':', 6)
            case Some(p) => length == Some(p.length) && val[..] == p.value
            case None => length == None
    ensures val[..] == Overwritten(old(val[..]), FieldsRead(str, 16, ':', 6))
  {
    hide Strtol, ParseFields, FieldsRead, Continued, AllBytes, Overwritten;
    ghost var all, bytes := ParseFields(str, 16, ':', 6), FieldsRead(str, 16, ':', 6);
    ghost var was, got: seq<int> := val[..], [];
    OverwrittenByNothing(was);
    assert str[0..] == str;
    NothingRead(all);
    var cp, i := 0, 0;
    while true
      invariant 0 <= cp <= |str| && 0 <= i < 6 && |got| == i
      invariant val[..] == Overwritten(was, got)
      invariant all == Continued(got, cp, ParseFields(str[cp..], 16, ':', 6 - i))
      invariant bytes == got + FieldsRead(str[cp..], 16, ':', 6 - i)
      decreases 6 - i
    {
      FieldAt(str, cp, 16, ':', 6 - i, got);
      FieldReadAt(str, cp, 16, ':', 6 - i, got);
      var x := Strtol(str[cp..], 16);
      if x.value < 0 || 255 < x.value {
        return None;
      }
      OverwrittenOneMore(was, got, x.value);
      ghost var before := val[..];
      val[i] := x.value;
      assert val[..] == before[i := x.value];
      got := got + [x.value];
      i := i + 1;
      var endp := cp + x.length;
      if i == 6 {
        OverwrittenBegins(was, got);
        return Some(endp);
      }
      if CharAt(str, endp) != ':' {
        return None;
      }
      cp := endp + 1;
    }
  }

  /** Reads an address; only a complete one is stored. */
  method ParseIP(str: string) returns (read: Option<Parsed<nat>>)
    ensures match ParseFields(str, 10, '.', 4)
            case Some(p) => AllBytes(p.value) && read == Some(Parsed(Address(p.value), p.length))
            case None => read == None
  {
    hide Strtol, ParseFields, Continued, Pow;
    ghost var all := ParseFields(str, 10, '.', 4);
    assert str[0..] == str;
    NothingRead(all);
    var cp, i, addr := 0, 0, 0;
    ghost var got := [];
    while true
      invariant 0 <= cp <= |str| && 0 <= i < 4
      invariant AllBytes(got) && addr == Address(got)
      invariant all == Continued(got, cp, ParseFields(str[cp..], 10, '.', 4 - i))
      decreases 4 - i
    {
      FieldAt(str, cp, 10, '.', 4 - i, got);
      var x := Strtol(str[cp..], 10);
      if x.value < 0 || 255 < x.value {
        return None;
      }
      addr := addr * 0x100 + x.value;
      assert (got + [x.value])[..|got|] == got;
      got := got + [x.value];
      i := i + 1;
      var endp := cp + x.length;
      if i == 4 {
        return Some(Parsed(addr, endp));
      }
      if CharAt(str, endp) != '.' {
        return None;
      }
      cp := endp + 1;
    }
  }
}
