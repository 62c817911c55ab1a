/**
 * The fun-facts section: each fact's display string yields a numeric target
 * (its decimal digits, in order), a counter climbs to that target in one
 * hundred equal steps once the section has been seen, and the current count
 * is formatted back for display.
 */
module FunFacts {

  datatype Option<T> = None | Some(value: T)

  /** The one fact that is never counted. */
  const Infinity: string := "∞"

  /** The `number` strings of the facts, in display order. */
  const Facts: seq<string> := ["2,847", "500K+", "1,200+", "15", "3,500+", "12", "48", "∞"]

  /** `\d` without the unicode flag: an ASCII decimal digit. */
  predicate IsDigit(c: char)
  {
    '0' <= c <= '9'
  }

  predicate AllDigits(s: string)
  {
    forall i :: 0 <= i < |s| ==> IsDigit(s[i])
  }

  /** `s.replace(/[^\d]/g, "")`: the decimal digits of `s`, in their order. */
  function DigitsOf(s: string): (ds: string)
    ensures AllDigits(ds)
    ensures |ds| <= |s|
  {
    if s == [] then []
    else (if IsDigit(s[0]) then [s[0]] else []) + DigitsOf(s[1..])
  }

  /** The value of a non-empty-or-empty string of decimal digits, most significant first. */
  function DecimalValue(ds: string): nat
    requires AllDigits(ds)
  {
    if ds == [] then 0
    else 10 * DecimalValue(ds[..|ds| - 1]) + (ds[|ds| - 1] as int - '0' as int)
  }

  /**
   * `Number.parseInt` of the extracted digits: the counter's target.
   * `None` stands for NaN, which is what a string without digits gives.
   */
  function Target(s: string): Option<nat>
  {
    var ds := DigitsOf(s);
    if ds == [] then None else Some(DecimalValue(ds))
  }

  /** The target is NaN exactly when the string has no ASCII digit. */
  lemma {:induction false} TargetNaNIffNoDigit(s: string)
    ensures Target(s) == None <==> forall i :: 0 <= i < |s| ==> !IsDigit(s[i])
  {
    if s != [] {
      TargetNaNIffNoDigit(s[1..]);
      DigitsOfConcat([s[0]], s[1..]);
      assert [s[0]] + s[1..] == s;
      assert forall i :: 1 <= i < |s| ==> s[i] == s[1..][i - 1];
    }
  }

  lemma {:induction false} DigitsOfConcat(a: string, b: string)
    ensures DigitsOf(a + b) == DigitsOf(a) + DigitsOf(b)
  {
    if a != [] {
      assert (a + b)[1..] == a[1..] + b;
      DigitsOfConcat(a[1..], b);
    } else {
      assert a + b == b;
    }
  }

  lemma {:induction false} DigitsOfDigits(s: string)
    requires AllDigits(s)
    ensures DigitsOf(s) == s
  {
    if s != [] {
      DigitsOfDigits(s[1..]);
    }
  }

  /** Removing a character that is not a digit leaves the target as it is. */
  lemma TargetIgnoresNonDigits(before: string, c: char, after: string)
    requires !IsDigit(c)
    ensures Target(before + [c] + after) == Target(before + after)
  {
    DigitsOfConcat(before + [c], after);
    DigitsOfConcat(before, [c]);
    DigitsOfConcat(before, after);
    assert [c][1..] == [];
    assert DigitsOf([c]) == [];
    assert DigitsOf(before + [c]) == DigitsOf(before);
    assert before + [c] + after == (before + [c]) + after;
  }

  /** Appending a digit shifts the value one decimal place. */
  lemma DecimalValueSnoc(ds: string, c: char)
    requires AllDigits(ds) && IsDigit(c)
    ensures AllDigits(ds + [c])
    ensures DecimalValue(ds + [c]) == 10 * DecimalValue(ds) + (c as int - '0' as int)
  {
    assert (ds + [c])[..|ds|] == ds;
  }

  /** A trailing "+" does not change the target. */
  lemma TrailingPlusIgnored(s: string)
    ensures Target(s + "+") == Target(s)
  {
    DigitsOfConcat(s, "+");
    assert DigitsOf("+") == [];
    assert DigitsOf(s) + [] == DigitsOf(s);
  }

  lemma TargetOfFact0()
    ensures Target(Facts[0]) == Some(2847)
  {
    assert Decimal(2) == "2";
    assert Group3(847) == "847";
    assert Facts[0] == Grouped(2847);
    GroupedRoundTrip(2847);
  }

  lemma TargetOfFact1()
    ensures Target(Facts[1]) == Some(500)
  {
    assert Facts[1] == Decimal(500) + "K+";
    KSuffixRoundTrip(500);
  }

  lemma TargetOfFact2()
    ensures Target(Facts[2]) == Some(1200)
  {
    assert Grouped(1200) == "1,200" by {
      assert Decimal(1) == "1" && Group3(200) == "200";
    }
    assert Facts[2] == Grouped(1200) + "+";
    TrailingPlusIgnored(Grouped(1200));
    GroupedRoundTrip(1200);
  }

  lemma TargetOfFact4()
    ensures Target(Facts[4]) == Some(3500)
  {
    assert Grouped(3500) == "3,500" by {
      assert Decimal(3) == "3" && Group3(500) == "500";
    }
    assert Facts[4] == Grouped(3500) + "+";
    TrailingPlusIgnored(Grouped(3500));
    GroupedRoundTrip(3500);
  }

  /** The two-digit facts are plain numerals. */
  lemma TargetOfPlainFacts()
    ensures Target(Facts[3]) == Some(15)
    ensures Target(Facts[5]) == Some(12)
    ensures Target(Facts[6]) == Some(48)
  {
    assert Facts[3] == Decimal(15) && Facts[5] == Decimal(12) && Facts[6] == Decimal(48);
    DigitsOfDigits(Decimal(15));
    DigitsOfDigits(Decimal(12));
    DigitsOfDigits(Decimal(48));
  }

  /** The target of every fact; "∞" has none. */
  lemma FactTargets()
    ensures Target(Facts[0]) == Some(2847) && Target(Facts[1]) == Some(500)
    ensures Target(Facts[2]) == Some(1200) && Target(Facts[3]) == Some(15)
    ensures Target(Facts[4]) == Some(3500) && Target(Facts[5]) == Some(12)
    ensures Target(Facts[6]) == Some(48) && Target(Facts[7]) == None
  {
    TargetOfFact0();
    TargetOfFact1();
    TargetOfFact2();
    TargetOfFact4();
    TargetOfPlainFacts();
    TargetOfFact7();
  }

  lemma TargetOfFact7()
    ensures Target(Facts[7]) == None
  {
    assert Facts[7][1..] == [];
    assert DigitsOf(Facts[7]) == [];
  }

  function DigitChar(d: nat): (c: char)
    requires d < 10
    ensures IsDigit(c) && c as int - '0' as int == d
  {
    ('0' as int + d) as char
  }

  /** The plain decimal numeral of `n`, without separators. */
  function Decimal(n: nat): (s: string)
    ensures |s| > 0 && AllDigits(s)
    ensures DecimalValue(s) == n
    decreases n
  {
    if n < 10 then [DigitChar(n)]
    else
      var front := Decimal(n / 10);
      DecimalValueSnoc(front, DigitChar(n % 10));
      front + [DigitChar(n % 10)]
  }

  /** A three-digit group, with leading zeros. */
  function Group3(m: nat): (s: string)
    requires m < 1000
    ensures |s| == 3 && AllDigits(s)
  {
    [DigitChar(m / 100), DigitChar(m / 10 % 10), DigitChar(m % 10)]
  }

  /** `n.toLocaleString()` in the en-US locale: groups of three digits separated by commas. */
  function Grouped(n: nat): (s: string)
    ensures |s| > 0 && IsDigit(s[0]) && IsDigit(s[|s| - 1])
    decreases n
  {
    if n < 1000 then Decimal(n) else Grouped(n / 1000) + "," + Group3(n % 1000)
  }

  /** The three digits of a group put back together. */
  lemma Group3Digits(m: nat)
    requires m < 1000
    ensures m == 100 * (m / 100) + 10 * (m / 10 % 10) + m % 10
  {
    var t := m / 10;
    assert m == 10 * t + m % 10;
    assert t == 10 * (t / 10) + t % 10;
    assert t / 10 == m / 100;
  }

  lemma Group3Value(front: string, m: nat)
    requires AllDigits(front) && m < 1000
    ensures AllDigits(front + Group3(m))
    ensures DecimalValue(front + Group3(m)) == 1000 * DecimalValue(front) + m
  {
    var g := Group3(m);
    var f1 := front + [g[0]];
    var f2 := f1 + [g[1]];
    DecimalValueSnoc(front, g[0]);
    DecimalValueSnoc(f1, g[1]);
    DecimalValueSnoc(f2, g[2]);
    assert front + g == f2 + [g[2]];
    Group3Digits(m);
  }

  /** The digits of the grouped numeral spell `n` again. */
  lemma {:induction false} GroupedDigits(n: nat)
    ensures DigitsOf(Grouped(n)) != []
    ensures DecimalValue(DigitsOf(Grouped(n))) == n
    decreases n
  {
    if n < 1000 {
      DigitsOfDigits(Decimal(n));
    } else {
      var front := Grouped(n / 1000);
      var g := Group3(n % 1000);
      GroupedDigits(n / 1000);
      DigitsOfConcat(front + ",", g);
      DigitsOfConcat(front, ",");
      DigitsOfDigits(g);
      assert DigitsOf(",") == [];
      assert DigitsOf(Grouped(n)) == DigitsOf(front) + g;
      Group3Value(DigitsOf(front), n % 1000);
    }
  }

  /** Reading a grouped numeral back as a target gives the number that was grouped. */
  lemma GroupedRoundTrip(n: nat)
    ensures Target(Grouped(n)) == Some(n)
  {
    GroupedDigits(n);
  }

  /** A numeral followed by `"K+"` reads back as the numeral's number. */
  lemma KSuffixRoundTrip(n: nat)
    ensures Target(Decimal(n) + "K+") == Some(n)
  {
    DigitsOfConcat(Decimal(n), "K+");
    DigitsOfDigits(Decimal(n));
    assert DigitsOf("K+") == [];
    assert Decimal(n) + [] == Decimal(n);
  }

  predicate EndsWithKPlus(s: string)
  {
    |s| >= 2 && s[|s| - 2..] == "K+"
  }

  /** `(num / 1000).toFixed(0)` for a non-negative integer: the nearest integer, a tie going to the larger one. */
  function RoundedThousands(num: nat): (r: nat)
    ensures 1000 * r - 500 <= num < 1000 * r + 500
  {
    (num + 500) / 1000
  }

  /** `formatNumber` as the component writes it: a "K" fact shows the counter divided by a thousand. */
  function FormatNumberAsWritten(num: nat, original: string): (shown: string)
    ensures 'K' in original ==> EndsWithKPlus(shown)
    ensures 'K' in original ==> Target(shown) == Some(RoundedThousands(num))
    ensures 'K' !in original ==> Target(shown) == Some(num)
  {
    if 'K' in original then
      KSuffixRoundTrip(RoundedThousands(num));
      Decimal(RoundedThousands(num)) + "K+"
    else
      GroupedRoundTrip(num);
      Grouped(num)
  }

  /**
   * The "500K+" fact settles on the counter value 500, and the component then
   * shows "1K+": the thousands division assumes a counter in units, but the
   * target was read from the digits "500".
   */
  lemma KFactSettlesAsWritten()
    ensures Target(Facts[1]) == Some(500)
    ensures FormatNumberAsWritten(500, Facts[1]) == "1K+"
    ensures Target(FormatNumberAsWritten(500, Facts[1])) != Target(Facts[1])
  {
    TargetOfFact1();
    assert Facts[1] == "500K+";
    assert 'K' in Facts[1] by { assert Facts[1][3] == 'K'; }
    assert RoundedThousands(500) == 1;
    assert Decimal(1) == "1";
  }

  /**
   * `formatNumber` with the K branch showing the counter itself: the shown
   * number is always the counter, so a settled counter shows the fact's own
   * number.
   */
  function FormatNumber(num: nat, original: string): (shown: string)
    ensures 'K' in original ==> EndsWithKPlus(shown)
    ensures Target(shown) == Some(num)
  {
    if 'K' in original then
      KSuffixRoundTrip(num);
      Decimal(num) + "K+"
    else
      GroupedRoundTrip(num);
      Grouped(num)
  }

  /** Once a counter has reached its target, the display reads back as the fact's own number. */
  lemma SettledDisplayShowsFact(fact: string, target: nat)
    requires Target(fact) == Some(target)
    ensures Target(FormatNumber(target, fact)) == Target(fact)
  {
  }

  /** The settled display of the first three facts; "1,200+" keeps its digits but not its plus sign. */
  lemma SettledDisplays()
    ensures FormatNumber(2847, Facts[0]) == "2,847"
    ensures FormatNumber(500, Facts[1]) == "500K+"
    ensures FormatNumber(1200, Facts[2]) == "1,200"
  {
    SettledDisplay0();
    SettledDisplay1();
    SettledDisplay2();
  }

  lemma SettledDisplay0()
    ensures FormatNumber(2847, Facts[0]) == "2,847"
  {
    assert 'K' !in Facts[0];
    assert Decimal(2) == "2" && Group3(847) == "847";
  }

  lemma SettledDisplay1()
    ensures FormatNumber(500, Facts[1]) == "500K+"
  {
    assert 'K' in Facts[1] by { assert Facts[1][3] == 'K'; }
    assert Decimal(500) == "500";
  }

  lemma SettledDisplay2()
    ensures FormatNumber(1200, Facts[2]) == "1,200"
  {
    assert 'K' !in Facts[2];
    assert Decimal(1) == "1" && Group3(200) == "200";
  }

  /** The number of ticks until the interval is cleared: one hundred, or one when the target is 0. */
  function TickCount(target: nat): nat
  {
    if target == 0 then 1 else 100
  }

  /** `Math.floor(current)` after `ticks` ticks of exact arithmetic, up to the tick that reaches the target. */
  function CounterAfter(target: nat, ticks: nat): nat
    requires ticks <= TickCount(target)
  {
    (ticks * target) / 100
  }

  /** The stored count never exceeds the target, and is below it until the last tick. */
  lemma CounterBounded(target: nat, ticks: nat)
    requires ticks <= TickCount(target)
    ensures CounterAfter(target, ticks) <= target
    ensures target > 0 && ticks < TickCount(target) ==> CounterAfter(target, ticks) < target
    ensures ticks == TickCount(target) ==> CounterAfter(target, ticks) == target
  {
    var v := CounterAfter(target, ticks);
    assert v * 100 <= ticks * target;
    if target > 0 {
      assert ticks * target <= 100 * target;
      if ticks < 100 {
        assert ticks * target < 100 * target;
      }
    }
  }

  /** The stored count never goes down from one tick to the next. */
  lemma CounterMonotone(target: nat, i: nat, j: nat)
    requires i <= j <= TickCount(target)
    ensures CounterAfter(target, i) <= CounterAfter(target, j)
  {
    assert i * target <= j * target;
  }

  /**
   * One tick of a fact's interval: `current += target / 100`; on reaching the
   * target, `current = target` and the interval is cleared (the flag).
   */
  function Advance(target: nat, current: real): (r: (real, bool))
    requires 0.0 <= current <= target as real
    ensures current <= r.0 <= target as real
    ensures r.1 <==> r.0 == target as real
  {
    var next := current + target as real / 100.0;
    if next >= target as real then (target as real, true) else (next, false)
  }

  /** The exact `current` after `ticks` ticks is reached exactly at the last tick. */
  lemma ReachesTargetAtLastTick(target: nat, ticks: nat)
    requires 1 <= ticks <= TickCount(target)
    ensures (ticks as real * (target as real / 100.0) >= target as real) <==> ticks == TickCount(target)
  {
    if target > 0 {
      var t := target as real;
      assert ticks as real * (t / 100.0) == (ticks as real / 100.0) * t;
      if ticks < 100 {
        assert ticks as real / 100.0 < 1.0;
      }
    }
  }

  /** The floor of the exact `current` after `ticks` ticks. */
  lemma FloorOfCurrent(target: nat, ticks: nat)
    requires ticks <= TickCount(target)
    ensures (ticks as real * (target as real / 100.0)).Floor == CounterAfter(target, ticks)
  {
    var x := ticks * target;
    var q, r := x / 100, x % 100;
    assert x == 100 * q + r;
    assert ticks as real * (target as real / 100.0) == x as real / 100.0;
    assert x as real / 100.0 == q as real + r as real / 100.0;
  }

  /**
   * The interval of one fact run to completion: the counts it stores, one per
   * tick, until the tick that clears it.
   */
  method CountUp(target: nat) returns (stored: seq<nat>)
    ensures |stored| == TickCount(target)
    ensures forall k :: 0 <= k < |stored| ==> stored[k] == CounterAfter(target, k + 1)
    ensures forall j, k :: 0 <= j <= k < |stored| ==> stored[j] <= stored[k] <= target
    ensures stored[|stored| - 1] == target
    ensures forall k :: 0 <= k < |stored| - 1 ==> stored[k] < target
  {
    var current: real := 0.0;
    var running := true;
    stored := [];
    while running
      invariant |stored| <= TickCount(target)
      invariant 0.0 <= current <= target as real
      invariant running ==> |stored| < TickCount(target)
      invariant running ==> current == |stored| as real * (target as real / 100.0)
      invariant !running ==> |stored| == TickCount(target) && current == target as real
      invariant forall k :: 0 <= k < |stored| ==> stored[k] == CounterAfter(target, k + 1)
      decreases TickCount(target) - |stored|
    {
      ghost var ticks := |stored| + 1;
      FloorOfCurrent(target, |stored|);
      ReachesTargetAtLastTick(target, ticks);
      var r := Advance(target, current);
      current := r.0;
      running := !r.1;
      FloorOfCurrent(target, ticks);
      CounterBounded(target, ticks);
      stored := stored + [current.Floor];
    }
    StoredCounts(target, stored);
  }

  /** The counts of a completed interval, in closed form, climb to the target and stop there. */
  lemma StoredCounts(target: nat, stored: seq<nat>)
    requires |stored| == TickCount(target)
    requires forall k :: 0 <= k < |stored| ==> stored[k] == CounterAfter(target, k + 1)
    ensures forall j, k :: 0 <= j <= k < |stored| ==> stored[j] <= stored[k] <= target
    ensures stored[|stored| - 1] == target
    ensures forall k :: 0 <= k < |stored| - 1 ==> stored[k] < target
  {
    forall j, k | 0 <= j <= k < |stored|
      ensures stored[j] <= stored[k] <= target
    {
      CounterMonotone(target, j + 1, k + 1);
      CounterBounded(target, k + 1);
    }
    forall k | 0 <= k < |stored| - 1
      ensures stored[k] < target
    {
      CounterBounded(target, k + 1);
    }
    CounterBounded(target, |stored|);
  }

  /** A fact that gets a counter: not "∞", and with at least one digit. */
  predicate Counted(i: int)
  {
    0 <= i < |Facts| && Facts[i] != Infinity && Target(Facts[i]).Some?
  }

  function TargetOf(i: int): nat
    requires Counted(i)
  {
    Target(Facts[i]).value
  }

  lemma LeadingDigitCounts(s: string)
    requires |s| > 0 && IsDigit(s[0])
    ensures Target(s).Some?
  {
  }

  /** Every fact except "∞" has digits, so each of them gets a counter. */
  lemma CountedFacts(i: int)
    requires 0 <= i < |Facts|
    ensures Counted(i) <==> Facts[i] != Infinity
  {
    if i < |Facts| - 1 {
      assert IsDigit(Facts[i][0]);
      LeadingDigitCounts(Facts[i]);
    }
  }

  /** Every fact other than "∞" has digits to count to. */
  predicate AllCountable(facts: seq<string>)
  {
    forall j :: 0 <= j < |facts| && facts[j] != Infinity ==> Target(facts[j]).Some?
  }

  lemma FactsCountable()
    ensures AllCountable(Facts)
  {
    forall j | 0 <= j < |Facts| && Facts[j] != Infinity
      ensures Target(Facts[j]).Some?
    {
      CountedFacts(j);
    }
  }

  /**
   * The effect that runs once the section is visible: one interval per fact,
   * skipping "∞", each starting from `current` 0 with the target read from
   * its fact.
   */
  method StartIntervals(facts: seq<string>) returns (started: map<int, real>, targets: map<int, nat>)
    requires AllCountable(facts)
    ensures forall j :: j in started <==> 0 <= j < |facts| && facts[j] != Infinity
    ensures started.Keys == targets.Keys
    ensures forall j :: j in started ==> started[j] == 0.0
    ensures forall j :: j in targets ==> 0 <= j < |facts| && Target(facts[j]) == Some(targets[j])
  {
    started, targets := map[], map[];
    for i := 0 to |facts|
      invariant forall j :: j in started ==> 0 <= j < i && facts[j] != Infinity
      invariant forall j :: 0 <= j < i && facts[j] != Infinity ==> j in started
      invariant started.Keys == targets.Keys
      invariant forall j :: j in started ==> started[j] == 0.0
      invariant forall j :: j in targets ==> 0 <= j < i && Target(facts[j]) == Some(targets[j])
    {
      if facts[i] != Infinity {
        targets := targets[i := Target(facts[i]).value];
        started := started[i := 0.0];
      }
    }
  }

  /** An interval's `current` lies between 0 and its target, and equals the target once it is cleared. */
  predicate IntervalState(current: real, target: nat, running: bool)
  {
    0.0 <= current <= target as real && (!running ==> current == target as real)
  }

  class FunFactsSection {
    var isVisible: bool
    /** `counters`: fact index ↦ the last stored `Math.floor(current)`. */
    var counters: map<int, nat>
    /** The `target` each started interval computed from its fact. */
    var target: map<int, nat>
    /** The `current` of each started interval. */
    var current: map<int, real>
    /** The intervals that have not been cleared. */
    var running: set<int>

    /** Each started interval's target is the one read from its fact. */
    ghost predicate TargetsRead()
      reads this`target
    {
      forall i :: i in target ==> Counted(i) && target[i] == TargetOf(i)
    }

    ghost predicate Valid()
      reads this
    {
      && current.Keys == target.Keys

      && (forall i :: i in current ==> IntervalState(current[i], target[i], i in running))
      && (forall i :: i in counters ==> i in current && counters[i] == current[i].Floor)
      && running <= current.Keys
      && (!isVisible ==> current == map[] && counters == map[] && running == {})
    }

    constructor ()
      ensures Valid() && TargetsRead() && !isVisible
      ensures counters == map[] && current == map[] && running == {}
    {
      isVisible := false;
      counters, target, current, running := map[], map[], map[], {};
    }

    /**
     * The intersection observer callback. The first time the section is seen,
     * the effect on `isVisible` starts one interval per fact, skipping "∞",
     * each with its target read from the fact and `current` at 0.
     */
    method Observe(isIntersecting: bool)
      requires Valid()
      modifies this
      ensures Valid() && (old(TargetsRead()) ==> TargetsRead())
      ensures isVisible == (old(isVisible) || isIntersecting)
      ensures counters == old(counters)
      ensures !old(isVisible) && isIntersecting ==>
                (forall i :: i in current <==> 0 <= i < |Facts| && Facts[i] != Infinity)
                && (forall i :: i in current ==> current[i] == 0.0 && target[i] == TargetOf(i))
                && running == current.Keys
      ensures old(isVisible) || !isIntersecting ==>
                current == old(current) && target == old(target) && running == old(running)
    {
      if isIntersecting && !isVisible {
        FactsCountable();
        var started, targets := StartIntervals(Facts);
        isVisible := true;
        current, target, running := started, targets, started.Keys;
      }
    }

    /** Fact `i`'s interval fires. */
    method Tick(i: int)
      requires Valid() && i in running
      modifies this
      ensures Valid() && isVisible == old(isVisible) && target == old(target)

      ensures current == old(current)[i := Advance(target[i], old(current)[i]).0]
      ensures running == if Advance(target[i], old(current)[i]).1 then old(running) - {i} else old(running)
      ensures counters == old(counters)[i := current[i].Floor]
      ensures i in old(counters) ==> old(counters)[i] <= counters[i]
      ensures counters[i] <= target[i]
      ensures i !in running <==> counters[i] == target[i]
    {
      var r := Advance(target[i], current[i]);
      assert r.0.Floor == target[i] <==> r.1 by {
        if r.0.Floor == target[i] {
          assert target[i] as real <= r.0;
        }
      }
      current := current[i := r.0];
      if r.1 {
        running := running - {i};
      }
      counters := counters[i := r.0.Floor];
    }

    /** `fact.number === "∞" ? "∞" : formatNumber(counters[index] || 0, fact.number)` */
    function Shown(i: int): (shown: string)
      reads this
      requires Valid() && 0 <= i < |Facts|
      ensures Facts[i] == Infinity ==> shown == Infinity
      ensures Facts[i] != Infinity ==> Target(shown) == Some(if i in counters then counters[i] else 0)
    {
      if Facts[i] == Infinity then Infinity
      else FormatNumber(if i in counters then counters[i] else 0, Facts[i])
    }
  }
}
