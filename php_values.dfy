/**
 * The PHP values the plugin's filters pass around, and the PHP built-ins
 * it relies on, stated as functions: `empty()` and truthiness, the
 * `(string)` cast, `str_replace` with an empty replacement, `array_unique`,
 * `stripslashes` and `date('Y-m-d')`.
 */
module PhpValues {

  datatype Option<+T> = None | Some(value: T)

  /**
   * A decoded PHP value. `Obj` is a string-keyed PHP array inside an entity
   * and a decoded JSON object (a `stdClass`) in the escape filter's term
   * list; `Empty` and `CastToString` each fit only one of these readings.
   */
  datatype Value =
    | Null
    | Bool(b: bool)
    | Int(i: int)
    | Str(s: string)
    | List(items: seq<Value>)
    | Obj(fields: map<string, Value>)

  /** A schema.org entity as the filters see it: an associative array. */
  type Entity = map<string, Value>

  /**
   * PHP's `empty()` (equivalently, `!$v`) on a value, reading `Obj` as an
   * array: an empty array is empty (an object never is, but `empty()` is
   * applied here only to entity fields, which are arrays or scalars).
   */
  predicate Empty(v: Value) {
    match v
    case Null => true
    case Bool(b) => !b
    case Int(i) => i == 0
    case Str(s) => s == "" || s == "0"
    case List(xs) => xs == []
    case Obj(m) => m == map[]
  }

  /** A string that PHP treats as false. */
  predicate Falsy(s: string) {
    s == "" || s == "0"
  }

  /** `empty($entity[$key])`: the key is missing or its value is empty. */
  predicate EmptyAt(e: Entity, key: string) {
    key !in e || Empty(e[key])
  }

  function StrList(xs: seq<string>): (r: seq<Value>)
    ensures |r| == |xs|
    ensures forall i :: 0 <= i < |xs| ==> r[i] == Str(xs[i])
  {
    seq(|xs|, i requires 0 <= i < |xs| => Str(xs[i]))
  }

  function ObjList(es: seq<Entity>): (r: seq<Value>)
    ensures |r| == |es|
    ensures forall i :: 0 <= i < |es| ==> r[i] == Obj(es[i])
  {
    seq(|es|, i requires 0 <= i < |es| => Obj(es[i]))
  }

  /** `array_map` on a list. */
  function MapSeq<A, B>(f: A -> B, xs: seq<A>): (r: seq<B>)
    ensures |r| == |xs|
    ensures forall i :: 0 <= i < |xs| ==> r[i] == f(xs[i])
  {
    seq(|xs|, i requires 0 <= i < |xs| => f(xs[i]))
  }

  lemma MapSeqSnoc<A, B>(f: A -> B, xs: seq<A>, i: nat)
    requires i < |xs|
    ensures MapSeq(f, xs[..i + 1]) == MapSeq(f, xs[..i]) + [f(xs[i])]
  {
    assert forall j :: 0 <= j < i ==> xs[..i + 1][j] == xs[..i][j];
  }

  // ---------------------------------------------------------------------
  // Decimal digits

  function DigitChar(d: nat): char
    requires d < 10
  {
    "0123456789"[d]
  }

  predicate IsDigit(c: char) {
    '0' <= c <= '9'
  }

  function DigitValue(c: char): nat {
    if IsDigit(c) then (c as int - '0' as int) as nat else 0
  }

  /** The decimal representation of `n`, without leading zeros. */
  function NatToString(n: nat): (s: string)
    ensures |s| > 0
    ensures forall i :: 0 <= i < |s| ==> IsDigit(s[i])
    ensures n < 10 <==> |s| == 1
    decreases n
  {
    if n < 10 then [DigitChar(n)] else NatToString(n / 10) + [DigitChar(n % 10)]
  }

  /** Reads a string of decimal digits back as a number. */
  function DigitsToNat(s: string): nat
    decreases |s|
  {
    if |s| == 0 then 0 else DigitsToNat(s[..|s| - 1]) * 10 + DigitValue(s[|s| - 1])
  }

  lemma {:induction false} DigitsRoundTrip(n: nat)
    ensures DigitsToNat(NatToString(n)) == n
    decreases n
  {
    if n >= 10 {
      var s := NatToString(n);
      assert s[..|s| - 1] == NatToString(n / 10);
      DigitsRoundTrip(n / 10);
    }
  }

  lemma {:induction false} NatToStringInjective(m: nat, n: nat)
    ensures NatToString(m) == NatToString(n) ==> m == n
  {
    DigitsRoundTrip(m);
    DigitsRoundTrip(n);
  }

  lemma {:induction false} NatToStringShort(n: nat)
    requires n < 100
    ensures |NatToString(n)| <= 2
  {
  }

  /** PHP's decimal rendering of an integer. */
  function IntToString(i: int): (s: string)
    ensures |s| > 0
  {
    if i < 0 then "-" + NatToString(-i) else NatToString(i)
  }

  lemma {:induction false} IntToStringInjective(i: int, j: int)
    requires IntToString(i) == IntToString(j)
    ensures i == j
  {
    var s, t := IntToString(i), IntToString(j);
    IntToStringSign(i);
    IntToStringSign(j);
    if i < 0 {
      assert s[1..] == NatToString(-i);
      assert t[1..] == NatToString(-j);
      NatToStringInjective(-i, -j);
    } else {
      NatToStringInjective(i, j);
    }
  }

  lemma IntToStringSign(i: int)
    ensures IntToString(i)[0] == '-' <==> i < 0
  {
    if i >= 0 {
      assert IsDigit(NatToString(i)[0]);
    }
  }

  /**
   * PHP's `(string)` cast, reading `Obj` as an object: `None` where PHP
   * throws, since an object has no string form (an array would give
   * `"Array"`, but the cast is applied here only to decoded term values).
   */
  function CastToString(v: Value): (r: Option<string>)
    ensures r.None? <==> v.Obj?
    ensures v.Int? ==> r == Some(IntToString(v.i))
    ensures v.Str? ==> r == Some(v.s)
  {
    match v
    case Null => Some("")
    case Bool(b) => Some(if b then "1" else "")
    case Int(i) => Some(IntToString(i))
    case Str(s) => Some(s)
    case List(_) => Some("Array")
    case Obj(_) => None
  }

  // ---------------------------------------------------------------------
  // Strings

  /** `str_replace($pat, '', $s)`: every non-overlapping occurrence of `pat`, scanning left to right, is removed. */
  function StrRemove(s: string, pat: string): (r: string)
    requires |pat| > 0
    ensures |r| <= |s|
    decreases |s|
  {
    if |s| < |pat| then s
    else if s[..|pat|] == pat then StrRemove(s[|pat|..], pat)
    else [s[0]] + StrRemove(s[1..], pat)
  }

  /** A string that lacks one of the pattern's characters is left as it is. */
  lemma {:induction false} StrRemoveAbsent(s: string, pat: string, c: char)
    requires |pat| > 0 && c in pat && c !in s
    ensures StrRemove(s, pat) == s
    decreases |s|
  {
    if |s| >= |pat| && s[..|pat|] != pat {
      assert c !in s[1..] by {
        forall k | 0 <= k < |s| - 1 ensures s[1..][k] != c {
          assert s[1..][k] == s[k + 1];
        }
      }
      StrRemoveAbsent(s[1..], pat, c);
      assert [s[0]] + s[1..] == s;
    }
  }

  /** A leading occurrence of the pattern is removed. */
  lemma StrRemoveLeading(pat: string, s: string)
    requires |pat| > 0
    ensures StrRemove(pat + s, pat) == StrRemove(s, pat)
  {
    assert (pat + s)[..|pat|] == pat;
    assert (pat + s)[|pat|..] == s;
  }

  /** PHP's `stripslashes`: a backslash quotes the next character (`\0` is NUL); a trailing one is dropped. */
  function StripSlashes(s: string): (r: string)
    ensures |r| <= |s|
    ensures '\\' !in s ==> r == s
    decreases |s|
  {
    if |s| == 0 then ""
    else if s[0] != '\\' then [s[0]] + StripSlashes(s[1..])
    else if |s| == 1 then ""
    else [if s[1] == '0' then '\0' else s[1]] + StripSlashes(s[2..])
  }

  // ---------------------------------------------------------------------
  // Lists

  predicate Distinct<T(==)>(s: seq<T>) {
    forall i, j :: 0 <= i < j < |s| ==> s[i] != s[j]
  }

  /** `array_unique` on a list: the first occurrence of each value is kept, in order. */
  function Unique<T(==)>(s: seq<T>): (r: seq<T>)
    ensures |r| <= |s|
    decreases |s|
  {
    if |s| == 0 then []
    else
      var p := Unique(s[..|s| - 1]);
      if s[|s| - 1] in s[..|s| - 1] then p else p + [s[|s| - 1]]
  }

  lemma {:induction false} UniqueMembers<T>(s: seq<T>)
    ensures forall x :: x in Unique(s) <==> x in s
    ensures Distinct(Unique(s))
    decreases |s|
  {
    if |s| > 0 {
      var init, last := s[..|s| - 1], s[|s| - 1];
      assert s == init + [last];
      UniqueMembers(init);
    }
  }

  lemma {:induction false} UniqueOfDistinct<T>(s: seq<T>)
    requires Distinct(s)
    ensures Unique(s) == s
    decreases |s|
  {
    if |s| > 0 {
      var init := s[..|s| - 1];
      assert s[|s| - 1] !in init;
      UniqueOfDistinct(init);
      assert init + [s[|s| - 1]] == s;
    }
  }

  /** `array_unique` is idempotent. */
  lemma UniqueIdempotent<T>(s: seq<T>)
    ensures Unique(Unique(s)) == Unique(s)
  {
    UniqueMembers(s);
    UniqueOfDistinct(Unique(s));
  }

  /**
   * `array_unique` keeps first occurrences in their original order: the
   * result for a prefix of the list is a prefix of the result for the list.
   */
  lemma {:induction false} UniquePrefix<T>(s: seq<T>, n: nat)
    requires n <= |s|
    ensures Unique(s[..n]) <= Unique(s)
    decreases |s|
  {
    if n < |s| {
      var init := s[..|s| - 1];
      assert init[..n] == s[..n];
      UniquePrefix(init, n);
    } else {
      assert s[..n] == s;
    }
  }

  // ---------------------------------------------------------------------
  // Dates

  /** A calendar date in the site's time zone, as `date_i18n` resolves a timestamp. */
  datatype Date = Date(year: nat, month: nat, day: nat)

  function PadLeft(s: string, width: nat): (r: string)
    ensures |r| == if |s| >= width then |s| else width
  {
    if |s| >= width then s else seq(width - |s|, _ => '0') + s
  }

  /** `date('Y-m-d')`: a year of at least four digits, a two-digit month and a two-digit day. */
  function FormatYmd(d: Date): (r: string)
    ensures |r| >= 10
  {
    PadLeft(NatToString(d.year), 4) + "-" + PadLeft(NatToString(d.month), 2) + "-" + PadLeft(NatToString(d.day), 2)
  }

  /** Reads a `Y-m-d` string back: the last six characters are `-mm-dd`. */
  function ParseYmd(s: string): Date
    requires |s| >= 6
  {
    Date(DigitsToNat(s[..|s| - 6]), DigitsToNat(s[|s| - 5..|s| - 3]), DigitsToNat(s[|s| - 2..]))
  }

  lemma {:induction false} LeadingZeros(k: nat, s: string)
    ensures DigitsToNat(seq(k, _ => '0') + s) == DigitsToNat(s)
    decreases |s|
  {
    var z := seq(k, _ => '0');
    if |s| == 0 {
      ZerosValue(k);
      assert z + s == z;
    } else {
      var init := s[..|s| - 1];
      assert (z + s)[..|z + s| - 1] == z + init;
      LeadingZeros(k, init);
    }
  }

  lemma {:induction false} ZerosValue(k: nat)
    ensures DigitsToNat(seq(k, _ => '0')) == 0
    decreases k
  {
    if k > 0 {
      var z := seq(k, _ => '0');
      assert z[..k - 1] == seq(k - 1, _ => '0');
      ZerosValue(k - 1);
    }
  }

  lemma PaddedValue(n: nat, width: nat)
    ensures DigitsToNat(PadLeft(NatToString(n), width)) == n
  {
    var s := NatToString(n);
    DigitsRoundTrip(n);
    if |s| < width {
      LeadingZeros(width - |s|, s);
    }
  }

  lemma YmdParts(y: string, m: string, dd: string)
    requires |m| == 2 && |dd| == 2
    ensures var s := y + "-" + m + "-" + dd;
      s[..|s| - 6] == y && s[|s| - 5..|s| - 3] == m && s[|s| - 2..] == dd
  {
    var s := y + "-" + m + "-" + dd;
    assert s[..|s| - 6] == y;
    assert s[|s| - 5..|s| - 3] == m;
    assert s[|s| - 2..] == dd;
  }

  lemma ParseJoined(y: string, m: string, dd: string)
    requires |m| == 2 && |dd| == 2
    ensures ParseYmd(y + "-" + m + "-" + dd) == Date(DigitsToNat(y), DigitsToNat(m), DigitsToNat(dd))
  {
    YmdParts(y, m, dd);
  }

  /** A formatted date reads back as the same date. */
  lemma FormatYmdRoundTrip(d: Date)
    requires d.month < 100 && d.day < 100
    ensures ParseYmd(FormatYmd(d)) == d
  {
    var y := PadLeft(NatToString(d.year), 4);
    var m := PadLeft(NatToString(d.month), 2);
    var dd := PadLeft(NatToString(d.day), 2);
    NatToStringShort(d.month);
    NatToStringShort(d.day);
    assert FormatYmd(d) == y + "-" + m + "-" + dd;
    ParseJoined(y, m, dd);
    PaddedValue(d.year, 4);
    PaddedValue(d.month, 2);
    PaddedValue(d.day, 2);
  }
}
