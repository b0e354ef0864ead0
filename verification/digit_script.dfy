/**
 * The digit-script conversion used to show numbers in Persian: `en_to_ar_num`
 * in helpers.py and its older copy `enToArNumb` in PASAT.py.  Both look every
 * character up in a fixed table and fail (a dictionary KeyError) on any
 * character the table lacks.
 */
module DigitScript {
  import opened Wrappers
  import opened Numerals

  /** The table of `en_to_ar_num`.  One and two are Arabic-Indic digits
      (U+0661, U+0662); the other digits are Extended Arabic-Indic
      (U+06F0, U+06F3..U+06F9); the decimal point stays itself. */
  const Table: map<char, char> := map[
    '0' := '\U{06F0}', '1' := '\U{0661}', '2' := '\U{0662}', '3' := '\U{06F3}',
    '4' := '\U{06F4}', '5' := '\U{06F5}', '6' := '\U{06F6}', '7' := '\U{06F7}',
    '8' := '\U{06F8}', '9' := '\U{06F9}', '.' := '.'
  ]

  /** The table written out a second time inside `enToArNumb`. */
  const LegacyTable: map<char, char> := map[
    '0' := '\U{06F0}', '1' := '\U{0661}', '2' := '\U{0662}', '3' := '\U{06F3}',
    '4' := '\U{06F4}', '5' := '\U{06F5}', '6' := '\U{06F6}', '7' := '\U{06F7}',
    '8' := '\U{06F8}', '9' := '\U{06F9}', '.' := '.'
  ]

  /** The inverse table: the on-screen character back to its ASCII source. */
  const Reverse: map<char, char> := map[
    '\U{06F0}' := '0', '\U{0661}' := '1', '\U{0662}' := '2', '\U{06F3}' := '3',
    '\U{06F4}' := '4', '\U{06F5}' := '5', '\U{06F6}' := '6', '\U{06F7}' := '7',
    '\U{06F8}' := '8', '\U{06F9}' := '9', '.' := '.'
  ]

  /** `en_to_ar_num(s)`: the table image of every character, left to right;
      `Err(c)` when the lookup of `c` raises, `c` being the first character
      the table does not know. */
  function EnToAr(s: string): (r: Result<string, char>)
    ensures r.Ok? <==> forall i :: 0 <= i < |s| ==> s[i] in Table
    ensures r.Ok? ==> |r.value| == |s| && forall i :: 0 <= i < |s| ==> r.value[i] == Table[s[i]]
    ensures r.Err? ==>
      && r.error !in Table
      && exists i :: 0 <= i < |s| && s[i] == r.error && forall j :: 0 <= j < i ==> s[j] in Table
  {
    if s == [] then Ok([])
    else if s[0] !in Table then Err(s[0])
    else
      match EnToAr(s[1..])
      case Ok(t) => Ok([Table[s[0]]] + t)
      case Err(c) =>
        assert exists i :: 0 <= i < |s| - 1 && s[1..][i] == c && forall j :: 0 <= j < i ==> s[1..][j] in Table;
        var i :| 0 <= i < |s| - 1 && s[1..][i] == c && forall j :: 0 <= j < i ==> s[1..][j] in Table;
        assert s[i + 1] == c && forall j :: 0 <= j < i + 1 ==> s[j] in Table by {
          forall j | 0 <= j < i + 1 ensures s[j] in Table {
            if j > 0 { assert s[j] == s[1..][j - 1]; }
          }
        }
        Err(c)
  }

  /** `enToArNumb`, the loop of the single-file revision over its own copy of
      the table: it computes exactly what `en_to_ar_num` computes. */
  method EnToArNumb(number: string) returns (r: Result<string, char>)
    ensures r == EnToAr(number)
  {
    var arnum := "";
    var i := 0;
    while i < |number|
      invariant 0 <= i <= |number|
      invariant |arnum| == i
      invariant forall j :: 0 <= j < i ==> number[j] in Table && arnum[j] == Table[number[j]]
    {
      var digit := number[i];
      if digit !in LegacyTable {
        assert digit !in Table;
        return Err(digit);
      }
      arnum := arnum + [LegacyTable[digit]];
      i := i + 1;
    }
    assert forall j :: 0 <= j < |number| ==> number[j] in Table;
    assert arnum == EnToAr(number).value;
    return Ok(arnum);
  }

  /** No two characters share an image, so the conversion loses nothing. */
  lemma TableInjective()
    ensures forall a, b :: a in Table && b in Table && Table[a] == Table[b] ==> a == b
    ensures forall a :: a in Table ==> Table[a] in Reverse && Reverse[Table[a]] == a
  {
  }

  /** `Reverse` applied character by character. */
  function ArToEn(s: string): (r: string)
    requires forall i :: 0 <= i < |s| ==> s[i] in Reverse
    ensures |r| == |s| && forall i :: 0 <= i < |s| ==> r[i] == Reverse[s[i]]
  {
    seq(|s|, i requires 0 <= i < |s| => Reverse[s[i]])
  }

  /** The conversion round-trips through the reverse table. */
  lemma RoundTrip(s: string)
    requires EnToAr(s).Ok?
    ensures var t := EnToAr(s).value;
      (forall i :: 0 <= i < |t| ==> t[i] in Reverse) && ArToEn(t) == s
  {
    TableInjective();
  }

  /** The conversion is a per-character map: it distributes over concatenation,
      and a concatenation converts exactly when both parts do. */
  lemma Distributes(a: string, b: string)
    ensures EnToAr(a + b).Ok? <==> EnToAr(a).Ok? && EnToAr(b).Ok?
    ensures EnToAr(a).Ok? && EnToAr(b).Ok? ==> EnToAr(a + b) == Ok(EnToAr(a).value + EnToAr(b).value)
  {
    var ab := a + b;
    if EnToAr(ab).Ok? {
      forall i | 0 <= i < |a| ensures a[i] in Table { assert a[i] == ab[i]; }
      forall i | 0 <= i < |b| ensures b[i] in Table { assert b[i] == ab[|a| + i]; }
    }
    if EnToAr(a).Ok? && EnToAr(b).Ok? {
      forall i | 0 <= i < |ab| ensures ab[i] in Table {
        if i < |a| { assert ab[i] == a[i]; } else { assert ab[i] == b[i - |a|]; }
      }
      var x, y, z := EnToAr(a).value, EnToAr(b).value, EnToAr(ab).value;
      forall i | 0 <= i < |ab| ensures z[i] == (x + y)[i] {
        if i < |a| { assert ab[i] == a[i]; } else { assert ab[i] == b[i - |a|]; }
      }
      assert z == x + y;
    }
  }

  /** ASCII numerals always convert, and the converted text still reads as
      the same number under `int`. */
  lemma ConvertedNumeralKeepsValue(s: string)
    requires IsAsciiNumeral(s)
    ensures EnToAr(s).Ok?
    ensures IsNumeral(EnToAr(s).value) && ParseInt(EnToAr(s).value) == ParseInt(s)
  {
    assert IsNumeral(s) by {
      forall i | 0 <= i < |s| ensures IsDigit(s[i]) { assert IsAsciiDigit(s[i]); }
      NumeralDigits(s);
    }
    assert EnToAr(s).Ok? by {
      forall i | 0 <= i < |s| ensures s[i] in Table { assert IsAsciiDigit(s[i]); }
    }
    var t := EnToAr(s).value;
    forall i | 0 <= i < |s| ensures DigitValue(t[i]) == DigitValue(s[i]) {
      TableKeepsDigit(s[i]);
    }
    SameDigitsSameValue(s, t);
  }

  /** Each ASCII digit maps to a digit of the same value. */
  lemma TableKeepsDigit(c: char)
    requires IsAsciiDigit(c)
    ensures c in Table && DigitValue(Table[c]) == DigitValue(c)
  {
    if c == '0' {} else if c == '1' {} else if c == '2' {} else if c == '3' {} else if c == '4' {}
    else if c == '5' {} else if c == '6' {} else if c == '7' {} else if c == '8' {} else {}
  }

  /** The language setting of the display. */
  datatype Language = English | Farsi

  /** `_n` applied to an ASCII numeral: unchanged in English (gettext has no
      entry for a bare numeral), converted through the table in Farsi. */
  function Localise(lang: Language, s: string): (r: string)
    requires IsAsciiNumeral(s)
    ensures |r| == |s| && IsNumeral(r) && ParseInt(r) == ParseInt(s)
  {
    ConvertedNumeralKeepsValue(s);
    assert IsNumeral(s) by {
      forall i | 0 <= i < |s| ensures IsDigit(s[i]) { assert IsAsciiDigit(s[i]); }
      NumeralDigits(s);
    }
    match lang
    case English => s
    case Farsi => EnToAr(s).value
  }
}
