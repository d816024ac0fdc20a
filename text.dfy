/** Line classification for the Massif text format.
    The parser of massif-combine recognises lines with three regular
    expressions and one literal; here each is an explicit string predicate. */
module MassifText {

  datatype Option<T> = None | Some(value: T)

  /** The literal delimiter line that brackets every snapshot name. */
  const Mark: string := "#-----------"

  predicate IsDigit(c: char) {
    '0' <= c <= '9'
  }

  predicate AllDigits(s: string) {
    forall k :: 0 <= k < |s| ==> IsDigit(s[k])
  }

  predicate StartsWith(line: string, prefix: string) {
    |prefix| <= |line| && line[..|prefix|] == prefix
  }

  /** `^(desc|cmd|time_unit):` searched in a line: the anchor pins the
      keyword to the start of the line. */
  predicate IsKeyword(line: string) {
    StartsWith(line, "desc:") || StartsWith(line, "cmd:") || StartsWith(line, "time_unit:")
  }

  /** `tag` occurs at position `k` of `line` and is followed by a digit. */
  predicate TagAt(line: string, tag: string, k: int) {
    0 <= k && k + |tag| < |line| && line[k..k + |tag|] == tag && IsDigit(line[k + |tag|])
  }

  /** The leftmost position at or after `from` where `tag` followed by a
      digit occurs: where a search for `tag\d+` starts its match. */
  function FindTag(line: string, tag: string, from: nat): (r: Option<nat>)
    ensures r.Some? ==> from <= r.value && r.value + |tag| < |line|
    decreases |line| - from
  {
    if from + |tag| >= |line| then None
    else if TagAt(line, tag, from) then Some(from)
    else FindTag(line, tag, from + 1)
  }

  /** `FindTag` finds the leftmost match at or after `from`, and reports
      None exactly when there is none. */
  lemma {:induction false} FindTagLeftmost(line: string, tag: string, from: nat)
    ensures var r := FindTag(line, tag, from);
      && (r.Some? ==> from <= r.value && TagAt(line, tag, r.value))
      && (r.Some? ==> forall k :: from <= k < r.value ==> !TagAt(line, tag, k))
      && (r.None? ==> forall k :: from <= k ==> !TagAt(line, tag, k))
    decreases |line| - from
  {
    if from + |tag| < |line| && !TagAt(line, tag, from) {
      FindTagLeftmost(line, tag, from + 1);
    }
  }

  /** `snapshot=\d+` found anywhere in the line. */
  predicate HasSnapshotTag(line: string) {
    FindTag(line, "snapshot=", 0).Some?
  }

  /** The maximal run of digits at the start of `s`: what a greedy `\d+` takes. */
  function DigitRun(s: string): (r: string)
    ensures r <= s && AllDigits(r)
    ensures |r| < |s| ==> !IsDigit(s[|r|])
  {
    if s != [] && IsDigit(s[0]) then [s[0]] + DigitRun(s[1..]) else []
  }

  /** The decimal value of a digit string (the conversion `std::stoi` does on
      a captured digit run; an empty run reads as 0). */
  function DigitsValue(s: string): nat
    requires AllDigits(s)
  {
    if s == [] then 0 else DigitsValue(s[..|s| - 1]) * 10 + (s[|s| - 1] as int - '0' as int)
  }

  /** `time=(\d+)` searched in a line: the value of the digits captured at the
      leftmost match, or None when the line has no match. */
  function TimeMatch(line: string): Option<nat> {
    match FindTag(line, "time=", 0)
    case None => None
    case Some(k) => Some(DigitsValue(DigitRun(line[k + 5..])))
  }

  /** A line has a time exactly when some `time=` in it is followed by a
      digit; the time is then the value of the whole digit run after the
      leftmost such `time=`. */
  lemma TimeMatchLeftmost(line: string)
    ensures TimeMatch(line).None? <==> forall k :: 0 <= k ==> !TagAt(line, "time=", k)
    ensures TimeMatch(line).Some? ==>
      exists k :: 0 <= k && TagAt(line, "time=", k)
        && (forall j :: 0 <= j < k ==> !TagAt(line, "time=", j))
        && TimeMatch(line).value == DigitsValue(DigitRun(line[k + 5..]))
  {
    FindTagLeftmost(line, "time=", 0);
  }

  /** Decimal rendering of a non-negative index (`std::to_string`). */
  function NatToString(n: nat): (s: string)
    ensures |s| > 0 && AllDigits(s)
    ensures DigitsValue(s) == n
    ensures |s| == 1 || s[0] != '0'
  {
    if n < 10 then [('0' as int + n) as char]
    else
      var prefix := NatToString(n / 10);
      var s := prefix + [('0' as int + n % 10) as char];
      assert s[..|s| - 1] == prefix;
      s
  }
}
