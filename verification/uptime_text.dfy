/** The shape of an uptime string, such as `1d 1h 0m 0s`: fields of a decimal amount and a unit
    letter, separated by single spaces, and the parser that reads one back into seconds. */
module UptimeText {
  import opened Wrappers
  import opened Decimal

  datatype Field = Field(amount: nat, unit: char)

  function RenderField(f: Field): string {
    NatToString(f.amount) + [f.unit]
  }

  function RenderFields(fs: seq<Field>): string
    requires |fs| >= 1
    decreases |fs|
  {
    if |fs| == 1 then RenderField(fs[0]) else RenderField(fs[0]) + " " + RenderFields(fs[1..])
  }

  /** The length of the run of digits that starts `s`. */
  function DigitRun(s: string): (k: nat)
    ensures k <= |s|
    ensures AllDigits(s[..k])
    ensures k < |s| ==> !IsDigit(s[k])
    decreases |s|
  {
    if s == [] || !IsDigit(s[0]) then 0
    else
      var k := DigitRun(s[1..]);
      assert s[..k + 1] == [s[0]] + s[1..][..k];
      k + 1
  }

  /** Reads `<digits><unit>` fields separated by single spaces; the unit is any non-digit. */
  function ParseFields(s: string): Option<seq<Field>>
    decreases |s|
  {
    var k := DigitRun(s);
    if k == 0 || k == |s| then None
    else
      var f := Field(DigitsValue(s[..k]), s[k]);
      var rest := s[k + 1..];
      if rest == [] then Some([f])
      else if rest[0] != ' ' then None
      else
        match ParseFields(rest[1..])
        case None => None
        case Some(fs) => Some([f] + fs)
  }

  predicate UnitsAreLetters(fs: seq<Field>) {
    forall i :: 0 <= i < |fs| ==> !IsDigit(fs[i].unit)
  }

  lemma {:induction false} DigitRunOfNumeral(digits: string, rest: string)
    requires AllDigits(digits)
    requires |rest| >= 1 && !IsDigit(rest[0])
    ensures DigitRun(digits + rest) == |digits|
    decreases |digits|
  {
    var s := digits + rest;
    if digits == [] {
      assert s == rest;
    } else {
      assert s[0] == digits[0];
      assert IsDigit(s[0]);
      assert s[1..] == digits[1..] + rest;
      assert DigitRun(s) == 1 + DigitRun(s[1..]);
      DigitRunOfNumeral(digits[1..], rest);
    }
  }

  /** Where the pieces of a rendered field sit in front of `tail`. */
  lemma RenderFieldLayout(f: Field, tail: string)
    requires !IsDigit(f.unit)
    ensures var s := RenderField(f) + tail; var k := |NatToString(f.amount)|;
            && DigitRun(s) == k && 0 < k < |s|
            && DigitsValue(s[..k]) == f.amount
            && s[k] == f.unit
            && s[k + 1..] == tail
  {
    var n := NatToString(f.amount);
    var s := RenderField(f) + tail;
    assert s == n + ([f.unit] + tail);
    DigitRunOfNumeral(n, [f.unit] + tail);
    assert s[..|n|] == n;
    NatToStringValue(f.amount);
  }

  /** Reading one rendered field off the front of a string. */
  lemma ParseFieldsHead(f: Field, tail: string)
    requires !IsDigit(f.unit)
    ensures ParseFields(RenderField(f) + tail) ==
              if tail == [] then Some([f])
              else if tail[0] != ' ' then None
              else match ParseFields(tail[1..])
                   case None => None
                   case Some(fs) => Some([f] + fs)
  {
    RenderFieldLayout(f, tail);
  }

  /** Parsing undoes rendering for any non-empty list of fields whose units are not digits. */
  lemma {:induction false} ParseRenderFields(fs: seq<Field>)
    requires |fs| >= 1 && UnitsAreLetters(fs)
    ensures ParseFields(RenderFields(fs)) == Some(fs)
    decreases |fs|
  {
    var head, more := fs[0], fs[1..];
    assert !IsDigit(head.unit);
    if |fs| == 1 {
      var r := RenderField(head);
      assert RenderFields(fs) == r + "";
      ParseFieldsHead(head, "");
      assert fs == [head];
    } else {
      assert UnitsAreLetters(more) by {
        forall i | 0 <= i < |more| ensures !IsDigit(more[i].unit) {
          assert more[i] == fs[i + 1];
        }
      }
      var rest := RenderFields(more);
      var tail := " " + rest;
      assert RenderFields(fs) == RenderField(head) + tail;
      ParseFieldsHead(head, tail);
      assert tail[0] == ' ' && tail[1..] == rest;
      ParseRenderFields(more);
      assert fs == [head] + more;
    }
  }

  /** The seconds an uptime string stands for, in each of the four shapes it can take. */
  function FieldsSeconds(fs: seq<Field>): Option<nat> {
    if |fs| == 4 && fs[0].unit == 'd' && fs[1].unit == 'h' && fs[2].unit == 'm' && fs[3].unit == 's' then
      Some(((fs[0].amount * 24 + fs[1].amount) * 60 + fs[2].amount) * 60 + fs[3].amount)
    else if |fs| == 3 && fs[0].unit == 'h' && fs[1].unit == 'm' && fs[2].unit == 's' then
      Some((fs[0].amount * 60 + fs[1].amount) * 60 + fs[2].amount)
    else if |fs| == 2 && fs[0].unit == 'm' && fs[1].unit == 's' then
      Some(fs[0].amount * 60 + fs[1].amount)
    else if |fs| == 1 && fs[0].unit == 's' then
      Some(fs[0].amount)
    else None
  }

  function ParseUptime(s: string): Option<nat> {
    match ParseFields(s)
    case None => None
    case Some(fs) => FieldsSeconds(fs)
  }
}
