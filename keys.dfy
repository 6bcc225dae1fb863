/** Storage key names `<kind>_<year>` and the string operations `getAllYears` uses to read a
    year back out of a key: JavaScript's template rendering of an integer, `split('_')` and
    `parseInt`. */
module Keys {
  import opened Wrappers
  import Seqs

  /** The three entries of `STORAGE_KEYS`. */
  datatype Kind = GoalsKind | UpdatesKind | SettingsKind

  function KindName(kind: Kind): string {
    match kind
    case GoalsKind => "goals"
    case UpdatesKind => "updates"
    case SettingsKind => "settings"
  }

  /** The key of one bucket in the key-value store. */
  datatype StorageKey = StorageKey(kind: Kind, year: int)

  /** `${STORAGE_KEYS.<KIND>}_${year}`. */
  function KeyName(key: StorageKey): string {
    KindName(key.kind) + "_" + IntToString(key.year)
  }

  predicate IsDigit(c: char) {
    '0' <= c <= '9'
  }

  function DigitValue(c: char): nat
    requires IsDigit(c)
  {
    (c as int) - ('0' as int)
  }

  function DigitChar(d: nat): (c: char)
    requires d < 10
    ensures IsDigit(c) && DigitValue(c) == d
  {
    ('0' as int + d) as char
  }

  /** The decimal rendering of a natural number, without leading zeros. */
  function NatToString(n: nat): (s: string)
    ensures |s| > 0
    ensures forall i :: 0 <= i < |s| ==> IsDigit(s[i])
  {
    if n < 10 then [DigitChar(n)] else NatToString(n / 10) + [DigitChar(n % 10)]
  }

  /** The decimal rendering of an integer: how JavaScript renders a whole number inside a template
      string when its magnitude is below 10^21 (larger numbers are rendered in exponent form,
      which this model does not cover). */
  function IntToString(i: int): string {
    if i < 0 then "-" + NatToString(-i) else NatToString(i)
  }

  predicate IsUnderscore(c: char) {
    c == '_'
  }

  /** `s.split('_')`: the pieces between underscores, in order; always at least one. */
  function Split(s: string): (r: seq<string>)
    ensures |r| >= 1
    decreases |s|
  {
    match Seqs.FirstIndex(s, IsUnderscore)
    case None => [s]
    case Some(i) => [s[..i]] + Split(s[i + 1..])
  }

  /** `key.split('_')[1]`; `None` stands for `undefined`. */
  function SecondField(s: string): Option<string> {
    var fields := Split(s);
    if |fields| > 1 then Some(fields[1]) else None
  }

  predicate IsSpace(c: char) {
    c == ' ' || c == '\t' || c == '\n' || c == '\r' || c == '\U{000B}' || c == '\U{000C}'
  }

  function TrimStart(s: string): (r: string)
    ensures |r| <= |s|
  {
    if s != [] && IsSpace(s[0]) then TrimStart(s[1..]) else s
  }

  /** The longest prefix of `s` made only of decimal digits. */
  function DigitPrefix(s: string): (r: string)
    ensures |r| <= |s| && r == s[..|r|]
    ensures forall i :: 0 <= i < |r| ==> IsDigit(r[i])
  {
    if s != [] && IsDigit(s[0]) then [s[0]] + DigitPrefix(s[1..]) else []
  }

  /** The number a string of decimal digits denotes. */
  function DigitsValue(s: string): nat
    requires forall i :: 0 <= i < |s| ==> IsDigit(s[i])
  {
    if s == [] then 0 else 10 * DigitsValue(s[..|s| - 1]) + DigitValue(s[|s| - 1])
  }

  /** `parseInt(s)` in base ten: leading white space, an optional sign, then as many digits as
      there are; `None` stands for `NaN` (no digit at all). */
  function ParseInt(s: string): Option<int> {
    var t := TrimStart(s);
    var negative := t != [] && t[0] == '-';
    var body := if t != [] && (t[0] == '-' || t[0] == '+') then t[1..] else t;
    var digits := DigitPrefix(body);
    if digits == [] then None
    else if negative then Some(-(DigitsValue(digits) as int))
    else Some(DigitsValue(digits))
  }

  /** `parseInt(key.split('_')[1])`; `parseInt(undefined)` is `NaN`. */
  function YearOfKey(key: string): Option<int> {
    match SecondField(key)
    case None => None
    case Some(field) => ParseInt(field)
  }

  /** `key.startsWith('goals_')`. */
  predicate IsGoalsKey(key: string) {
    var prefix := KindName(GoalsKind) + "_";
    |prefix| <= |key| && key[..|prefix|] == prefix
  }

  lemma {:induction false} DigitPrefixOfDigits(s: string)
    requires forall i :: 0 <= i < |s| ==> IsDigit(s[i])
    ensures DigitPrefix(s) == s
  {
    if s != [] {
      DigitPrefixOfDigits(s[1..]);
    }
  }

  lemma {:induction false} NatRoundTrip(n: nat)
    ensures DigitsValue(NatToString(n)) == n
  {
    if n >= 10 {
      var s := NatToString(n);
      assert s[..|s| - 1] == NatToString(n / 10);
      NatRoundTrip(n / 10);
    }
  }

  /** Parsing the rendering of any integer gives that integer back. */
  lemma IntRoundTrip(i: int)
    ensures ParseInt(IntToString(i)) == Some(i)
  {
    if i < 0 {
      NegativeRoundTrip(-i);
    } else {
      NaturalRoundTrip(i);
    }
  }

  lemma NaturalRoundTrip(n: nat)
    ensures ParseInt(NatToString(n)) == Some(n)
  {
    var s := NatToString(n);
    assert IsDigit(s[0]);
    assert TrimStart(s) == s;
    DigitPrefixOfDigits(s);
    NatRoundTrip(n);
  }

  lemma NegativeRoundTrip(n: nat)
    requires n > 0
    ensures ParseInt("-" + NatToString(n)) == Some(-(n as int))
  {
    var digits := NatToString(n);
    var s := "-" + digits;
    assert s[0] == '-';
    assert TrimStart(s) == s;
    assert s[1..] == digits;
    DigitPrefixOfDigits(digits);
    NatRoundTrip(n);
  }

  lemma NoUnderscoreSplit(s: string)
    requires forall i :: 0 <= i < |s| ==> !IsUnderscore(s[i])
    ensures Split(s) == [s]
  {
  }

  lemma KindNameHasNoUnderscore(kind: Kind)
    ensures forall i :: 0 <= i < |KindName(kind)| ==> !IsUnderscore(KindName(kind)[i])
  {
  }

  lemma IntToStringHasNoUnderscore(i: int)
    ensures forall j :: 0 <= j < |IntToString(i)| ==> !IsUnderscore(IntToString(i)[j])
  {
  }

  /** Splitting a key at underscores gives back its kind's name and the rendered year. */
  lemma SplitKeyName(key: StorageKey)
    ensures Split(KeyName(key)) == [KindName(key.kind), IntToString(key.year)]
  {
    var name, year := KindName(key.kind), IntToString(key.year);
    KindNameHasNoUnderscore(key.kind);
    IntToStringHasNoUnderscore(key.year);
    Seqs.FirstIndexAfterPrefix(name, "_" + year, IsUnderscore);
    assert KeyName(key) == name + ("_" + year);
    assert KeyName(key)[..|name|] == name;
    assert KeyName(key)[|name| + 1..] == year;
    NoUnderscoreSplit(year);
  }

  /** Key round trip: the year read back from a key is the year the key was built from. */
  lemma YearOfKeyName(key: StorageKey)
    ensures YearOfKey(KeyName(key)) == Some(key.year)
  {
    SplitKeyName(key);
    IntRoundTrip(key.year);
  }

  /** Only keys of the goals kind pass the `goals_` prefix filter. */
  lemma GoalsPrefixOfKeyName(key: StorageKey)
    ensures IsGoalsKey(KeyName(key)) <==> key.kind == GoalsKind
  {
    var name := KeyName(key);
    assert name == KindName(key.kind) + "_" + IntToString(key.year);
    match key.kind
    case GoalsKind =>
    case UpdatesKind => assert name[0] == 'u';
    case SettingsKind => assert name[0] == 's';
  }

  /** Distinct buckets have distinct key names, so a write to one key never touches another. */
  lemma KeyNameInjective(a: StorageKey, b: StorageKey)
    requires KeyName(a) == KeyName(b)
    ensures a == b
  {
    SplitKeyName(a);
    SplitKeyName(b);
    IntRoundTrip(a.year);
    IntRoundTrip(b.year);
    assert KindName(a.kind) == KindName(b.kind);
  }
}
