/** Which bucket a reading belongs to, and the Redis key that names it
    (phase0/bucketing/bucket_key_resolver.py, phase0/baseline/rolling_baseline_store.py). */
module BucketKeys {
  import opened Wrappers

  datatype BucketKey = BucketKey(vmId: string, metricName: string, hour: Option<int>, isWeekend: Option<bool>) {
    predicate IsGlobal() {
      hour.None? && isWeekend.None?
    }
  }

  datatype ResolverError = ZeroGranularity | GranularityDoesNotDivideDay

  datatype Resolver = Resolver(granularityHours: int, splitWeekdayWeekend: bool)

  /** The resolver's constructor: any divisor of 24, negative ones included. */
  function MakeResolver(granularityHours: int, split: bool): Result<AcceptedResolver, ResolverError> {
    if granularityHours == 0 then Err(ZeroGranularity)
    else if 24 % granularityHours != 0 then Err(GranularityDoesNotDivideDay)
    else Ok(Resolver(granularityHours, split))
  }

  /** The resolvers that exist. */
  type AcceptedResolver = r: Resolver | r.granularityHours != 0 && 24 % r.granularityHours == 0
    witness Resolver(1, true)

  /** Python's floor division of an hour of the day. */
  function FloorDiv(hour: nat, granularity: int): int
    requires granularity != 0
  {
    if granularity > 0 then hour / granularity else -((hour + -granularity - 1) / -granularity)
  }

  function Resolve(r: AcceptedResolver, vmId: string, metricName: string, hour: nat, weekday: nat): BucketKey
  {
    BucketKey(vmId, metricName, Some(FloorDiv(hour, r.granularityHours)),
              if r.splitWeekdayWeekend then Some(weekday >= 5) else None)
  }

  function ResolveGlobal(vmId: string, metricName: string): BucketKey {
    BucketKey(vmId, metricName, None, None)
  }

  function Digit(d: int): char
    requires 0 <= d < 10
  {
    "0123456789"[d]
  }

  /** Python's format code 02d for numbers of at most two digits. */
  function Format02(n: int): string
    requires -100 < n < 100
  {
    if n >= 0 then [Digit(n / 10), Digit(n % 10)]
    else if n > -10 then ['-', Digit(-n)]
    else ['-', Digit(-n / 10), Digit(-n % 10)]
  }

  /** Keys the formatter accepts: an hour that prints in two digits, or no hour and no weekend flag. */
  predicate Printable(k: BucketKey) {
    if k.hour.Some? then -100 < k.hour.value < 100 else k.isWeekend.None?
  }

  function RedisKey(prefix: string, k: BucketKey): string
    requires Printable(k)
  {
    var base := prefix + ":" + k.vmId + ":" + k.metricName;
    if k.IsGlobal() then base + ":" + "global"
    else
      var hourly := base + ":" + ("hour" + Format02(k.hour.value));
      match k.isWeekend
      case None => hourly
      case Some(true) => hourly + ":" + "weekend"
      case Some(false) => hourly + ":" + "weekday"
  }

  // ----- reading a key back, from the right -----

  function BeforeLastColon(s: string): string {
    if s == "" then ""
    else if s[|s|-1] == ':' then s[..|s|-1]
    else BeforeLastColon(s[..|s|-1])
  }

  function AfterLastColon(s: string): string {
    if s == "" then ""
    else if s[|s|-1] == ':' then ""
    else AfterLastColon(s[..|s|-1]) + [s[|s|-1]]
  }

  lemma {:induction false} LastField(x: string, f: string)
    requires ':' !in f
    ensures BeforeLastColon(x + ":" + f) == x && AfterLastColon(x + ":" + f) == f
  {
    if f == "" {
      assert x + ":" + f == x + ":";
      assert (x + ":")[..|x|] == x;
    } else {
      var init := f[..|f|-1];
      LastField(x, init);
      assert (x + ":" + f)[..|x + ":" + f| - 1] == x + ":" + init;
    }
  }

  function DigitValue(c: char): int {
    c as int - '0' as int
  }

  function ParseNat(s: string): int {
    if s == "" then 0 else 10 * ParseNat(s[..|s|-1]) + DigitValue(s[|s|-1])
  }

  function ParseInt(s: string): int {
    if s != "" && s[0] == '-' then -ParseNat(s[1..]) else ParseNat(s)
  }

  /** What a key says: its base name, its hour block and its weekend flag. */
  datatype Parsed = Parsed(base: string, hour: Option<int>, isWeekend: Option<bool>)

  function ParseHour(base: string, field: string, isWeekend: Option<bool>): Parsed {
    Parsed(base, Some(ParseInt(if |field| >= 4 then field[4..] else field)), isWeekend)
  }

  function ParseRedisKey(key: string): Parsed {
    var base, field := BeforeLastColon(key), AfterLastColon(key);
    if field == "global" then Parsed(base, None, None)
    else if field == "weekend" || field == "weekday" then
      ParseHour(BeforeLastColon(base), AfterLastColon(base), Some(field == "weekend"))
    else ParseHour(base, field, None)
  }

  lemma DigitFacts(d: int)
    requires 0 <= d < 10
    ensures DigitValue(Digit(d)) == d && Digit(d) != ':' && Digit(d) != '-'
  {
  }

  lemma ParseFormatted(n: int)
    requires -100 < n < 100
    ensures ParseInt(Format02(n)) == n && ':' !in Format02(n)
  {
    var m := if n < 0 then -n else n;
    DigitFacts(m / 10);
    DigitFacts(m % 10);
    var s := Format02(n);
    if n >= 0 {
      assert s[..1] == [s[0]] && s[..1][..0] == "";
      assert ParseNat(s[..1]) == DigitValue(s[0]);
    } else if n > -10 {
      assert s[1..] == [s[1]] && s[1..][..0] == "";
    } else {
      var t := s[1..];
      assert t == [s[1], s[2]] && t[..1] == [s[1]] && t[..1][..0] == "";
      assert ParseNat(t[..1]) == DigitValue(s[1]);
    }
  }

  lemma HourField(n: int, base: string, w: Option<bool>)
    requires -100 < n < 100
    ensures var f := "hour" + Format02(n);
            && ':' !in f && f != "global" && f != "weekend" && f != "weekday"
            && ParseHour(base, f, w) == Parsed(base, Some(n), w)
  {
    hide Format02, ParseInt;
    ParseFormatted(n);
    var f := "hour" + Format02(n);
    assert f[4..] == Format02(n);
    assert f[0] == 'h';
  }

  /** The parser inverts the formatter, whatever the names contain. */
  lemma {:induction false} ParseInvertsRedisKey(prefix: string, k: BucketKey)
    requires Printable(k)
    ensures ParseRedisKey(RedisKey(prefix, k)) ==
            Parsed(prefix + ":" + k.vmId + ":" + k.metricName, k.hour, k.isWeekend)
  {
    hide Format02, ParseHour, BeforeLastColon, AfterLastColon;
    var base := prefix + ":" + k.vmId + ":" + k.metricName;
    if k.IsGlobal() {
      LastField(base, "global");
    } else {
      var field := "hour" + Format02(k.hour.value);
      HourField(k.hour.value, base, k.isWeekend);
      LastField(base, field);
      if k.isWeekend.Some? {
        var flag := if k.isWeekend.value then "weekend" else "weekday";
        LastField(base + ":" + field, flag);
        assert "weekday" != "weekend" by { assert "weekday"[4] != "weekend"[4]; }
        assert "weekday" != "global" && "weekend" != "global" by { assert |"global"| == 6; }
      }
    }
  }

  /** Exactly when two keys collide: same block, same flag, and names that read the same once
      joined by a colon. */
  lemma {:induction false} CollisionExact(prefix: string, a: BucketKey, b: BucketKey)
    requires Printable(a) && Printable(b)
    ensures RedisKey(prefix, a) == RedisKey(prefix, b) <==>
              && a.hour == b.hour && a.isWeekend == b.isWeekend
              && a.vmId + ":" + a.metricName == b.vmId + ":" + b.metricName
  {
    hide Format02, ParseRedisKey;
    var x, y := a.vmId + ":" + a.metricName, b.vmId + ":" + b.metricName;
    var p := prefix + ":";
    assert prefix + ":" + a.vmId + ":" + a.metricName == p + x;
    assert prefix + ":" + b.vmId + ":" + b.metricName == p + y;
    ParseInvertsRedisKey(prefix, a);
    ParseInvertsRedisKey(prefix, b);
    if p + x == p + y {
      assert x == (p + x)[|p|..] && y == (p + y)[|p|..];
    }
  }

  /** Distinct keys never share a Redis key when metric names contain no colon ... */
  lemma {:induction false} RedisKeyInjective(prefix: string, a: BucketKey, b: BucketKey)
    requires Printable(a) && Printable(b)
    requires ':' !in a.metricName && ':' !in b.metricName
    ensures RedisKey(prefix, a) == RedisKey(prefix, b) <==> a == b
  {
    CollisionExact(prefix, a, b);
    LastField(a.vmId, a.metricName);
    LastField(b.vmId, b.metricName);
  }

  /** ... or when VM names contain none. */
  lemma {:induction false} RedisKeyInjectiveByVm(prefix: string, a: BucketKey, b: BucketKey)
    requires Printable(a) && Printable(b)
    requires ':' !in a.vmId && ':' !in b.vmId
    ensures RedisKey(prefix, a) == RedisKey(prefix, b) <==> a == b
  {
    hide RedisKey;
    CollisionExact(prefix, a, b);
    if RedisKey(prefix, a) == RedisKey(prefix, b) {
      FirstField(a.vmId, a.metricName, b.vmId, b.metricName);
    }
  }

  /** The text before the first colon is determined by the whole. */
  lemma FirstField(x: string, f: string, y: string, g: string)
    requires ':' !in x && ':' !in y && x + ":" + f == y + ":" + g
    ensures x == y && f == g
  {
    var s, t := x + ":" + f, y + ":" + g;
    assert s[|x|] == ':' && t[|y|] == ':';
    assert s[..|x|] == x && t[..|y|] == y;
    assert forall i :: 0 <= i < |x| ==> s[i] == x[i];
    assert forall i :: 0 <= i < |y| ==> t[i] == y[i];
    assert |x| == |y|;
    assert f == s[|x| + 1..] && g == t[|y| + 1..];
  }

  /** With colons in the names two different series share one bucket. */
  lemma {:induction false} ColonsCollide()
    ensures var a, b := ResolveGlobal("x:y", "z"), ResolveGlobal("x", "y:z");
            a != b && RedisKey("p", a) == RedisKey("p", b)
  {
    assert ResolveGlobal("x:y", "z").vmId != ResolveGlobal("x", "y:z").vmId;
  }

  /** The resolver accepts exactly the divisors of 24 and their negatives. */
  lemma {:induction false} ResolverExact(g: int, split: bool)
    ensures MakeResolver(g, split).Ok? <==> (if g < 0 then -g else g) in {1, 2, 3, 4, 6, 8, 12, 24}
    ensures MakeResolver(g, split).Ok? ==>
              MakeResolver(g, split).value.granularityHours == g
              && MakeResolver(g, split).value.splitWeekdayWeekend == split
  {
    if g > 24 {
      assert 24 % g == 24;
    } else if g < -24 {
      assert 24 % g == 24 by { assert 24 / g == 0; }
    }
  }

  /** Which key a reading gets: its own series, the block of its hour and, when split, its side of the weekend
      (Saturday and Sunday are days 5 and 6). */
  lemma {:induction false} ResolveExact(g: int, split: bool, vm: string, metric: string, hour: nat, weekday: nat)
    requires MakeResolver(g, split).Ok? && hour < 24
    ensures var k := Resolve(MakeResolver(g, split).value, vm, metric, hour, weekday);
            && k.vmId == vm && k.metricName == metric
            && k.hour.Some? && InBlock(g, k.hour.value, hour)
            && k.isWeekend == (if !split then None else if weekday < 5 then Some(false) else Some(true))
  {
    hide InBlock;
    BlockOfHour(g, hour);
  }

  /** What keys look like: two digits for the hours of a day, a sign and one digit for small negative blocks. */
  lemma {:induction false} KeyTexts(prefix: string, vm: string, metric: string, h: int, weekend: Option<bool>)
    requires 0 <= h < 24
    ensures RedisKey(prefix, ResolveGlobal(vm, metric)) == prefix + ":" + vm + ":" + metric + ":global"
    ensures RedisKey(prefix, BucketKey(vm, metric, Some(h), weekend)) ==
            prefix + ":" + vm + ":" + metric + ":hour" + ["0123456789"[h / 10], "0123456789"[h % 10]] +
            (if weekend == Some(true) then ":weekend" else if weekend == Some(false) then ":weekday" else "")
    ensures 0 < h < 10 ==>
              RedisKey(prefix, BucketKey(vm, metric, Some(-h), None)) ==
              prefix + ":" + vm + ":" + metric + ":hour-" + ["0123456789"[h]]
  {
    hide Format02;
    var base := prefix + ":" + vm + ":" + metric;
    HourTexts(h);
    assert ":" + "global" == ":global";
    var hourly := base + ":" + ("hour" + Format02(h));
    assert hourly == base + ":hour" + Format02(h);
    assert hourly + ":" + "weekend" == base + ":hour" + Format02(h) + ":weekend";
    assert hourly + ":" + "weekday" == base + ":hour" + Format02(h) + ":weekday";
    assert hourly + "" == hourly;
    if 0 < h < 10 {
      assert base + ":" + ("hour" + Format02(-h)) == base + ":hour-" + ["0123456789"[h]];
    }
  }

  lemma HourTexts(h: int)
    requires 0 <= h < 24
    ensures Format02(h) == ["0123456789"[h / 10], "0123456789"[h % 10]]
    ensures 0 < h < 10 ==> Format02(-h) == "-" + ["0123456789"[h]]
  {
  }

  /** Every accepted resolver makes printable keys, and two readings of one series share a bucket
      exactly when they fall in the same block of |granularity| hours (counted from midnight, or
      towards midnight for a negative divisor) and, when split, on the same side of the weekend. */
  lemma {:induction false} SameBucketExact(g: int, split: bool, prefix: string, vm: string, metric: string,
                        h1: nat, d1: nat, h2: nat, d2: nat)
    requires MakeResolver(g, split).Ok? && h1 < 24 && h2 < 24
    ensures var r := MakeResolver(g, split).value;
            var a, b := Resolve(r, vm, metric, h1, d1), Resolve(r, vm, metric, h2, d2);
            && Printable(a) && Printable(b)
            && (RedisKey(prefix, a) == RedisKey(prefix, b) <==>
                  && (exists k: int :: InBlock(g, k, h1) && InBlock(g, k, h2))
                  && (split ==> (d1 >= 5 <==> d2 >= 5)))
  {
    var r := MakeResolver(g, split).value;
    BlockOfHour(g, h1);
    BlockOfHour(g, h2);
    CollisionExact(prefix, Resolve(r, vm, metric, h1, d1), Resolve(r, vm, metric, h2, d2));
    var k := FloorDiv(h1, g);
    assert InBlock(g, k, h1);
    forall j | InBlock(g, j, h1) && InBlock(g, j, h2) ensures FloorDiv(h1, g) == FloorDiv(h2, g) {
      BlockUnique(g, j, FloorDiv(h1, g), h1);
      BlockUnique(g, j, FloorDiv(h2, g), h2);
    }
  }

  /** Hour h lies in block k of width g. */
  predicate InBlock(g: int, k: int, h: int) {
    if g > 0 then k * g <= h < k * g + g else -k * -g + g < h <= -k * -g
  }

  lemma BlockOfHour(g: int, h: nat)
    requires g != 0 && h < 24
    ensures InBlock(g, FloorDiv(h, g), h) && -24 < FloorDiv(h, g) < 24
  {
    if g < 0 {
      DivBounds(h + -g - 1, -g);
    } else {
      DivBounds(h, g);
    }
  }

  lemma DivBounds(n: nat, w: int)
    requires w > 0
    ensures (n / w) * w <= n < (n / w) * w + w
    ensures n < 23 + w ==> 0 <= n / w < 24
  {
    var q := n / w;
    assert n == q * w + n % w by { assert q * w == w * q; }
    if q >= 24 { MulStep(23, q, w); }
  }

  lemma {:induction false} MulStep(a: int, b: int, w: int)
    requires w > 0 && a < b
    ensures a * w + w <= b * w
    decreases b - a
  {
    assert b * w == (b - 1) * w + w;
    if a + 1 < b {
      MulStep(a, b - 1, w);
    }
  }

  lemma BlockUnique(g: int, j: int, k: int, h: int)
    requires g != 0 && InBlock(g, j, h) && InBlock(g, k, h)
    ensures j == k
  {
    var w := if g > 0 then g else -g;
    var a, b := if g > 0 then j else -j, if g > 0 then k else -k;
    if a < b { MulStep(a, b, w); }
    if b < a { MulStep(b, a, w); }
  }
}
