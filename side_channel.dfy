/**
 * The timing side-channel demonstration of test_side_channel.py: a bit-count
 * loop whose work grows with the number of set bits, the collection of
 * (bit count, time) samples into a dictionary keyed by input value, and the
 * grouping, averaging and verdict of `analyze_timing_data`.
 *
 * The random inputs and the measured times are parameters; times are reals.
 * A Python dict is modelled as its keys in insertion order (`order`) beside
 * a map from key to value (`entries`): overwriting a key keeps its position.
 */
module SideChannel {
  import opened ModularArithmetic

  /** The upper bound of `random.randint(0, 0xFFFFFFFF)`. */
  const MaxInput: int := 0xFFFF_FFFF
  /** `non_constant_time_operation` inspects bits 0..31. */
  const Width: nat := 32

  /** `(x >> i) & 1` for a Python integer x (both floor towards minus infinity). */
  function Bit(x: int, i: nat): (b: nat)
    ensures b == 0 || b == 1
  {
    (x / Pow(2, i)) % 2
  }

  /** The number of set bits among bits 0..n-1 of x. */
  function CountBelow(x: int, n: nat): (c: nat)
    ensures c <= n
  {
    if n == 0 then 0 else CountBelow(x, n - 1) + Bit(x, n - 1)
  }

  /** The positions of the set bits below n. */
  ghost function SetBits(x: int, n: nat): set<nat>
  {
    set i: nat | i < n && Bit(x, i) == 1
  }

  /** The count is the size of the set of set-bit positions. */
  lemma {:induction false} CountIsSetBits(x: int, n: nat)
    ensures CountBelow(x, n) == |SetBits(x, n)|
  {
    if n > 0 {
      CountIsSetBits(x, n - 1);
      var below := SetBits(x, n - 1);
      assert n - 1 !in below;
      if Bit(x, n - 1) == 1 {
        assert forall i: nat :: i in SetBits(x, n) <==> i in below + {n - 1};
        assert SetBits(x, n) == below + {n - 1};
      } else {
        assert forall i: nat :: i in SetBits(x, n) <==> i in below;
        assert SetBits(x, n) == below;
      }
    }
  }

  /** Bit i < 32 of x is bit i of x mod 2^32. */
  lemma LowBitOfResidue(x: int, i: nat)
    requires i < Width
    ensures Bit(x, i) == Bit(x % Pow(2, Width), i)
  {
    PowAdd(2, i, Width - i);
    LowBitOfMultiple(x, Pow(2, i), Pow(2, Width - i - 1));
  }

  /** Reducing modulo 2 p h does not change the lowest bit of the quotient by p. */
  lemma LowBitOfMultiple(x: int, p: int, h: int)
    requires p > 0 && h > 0
    ensures (x / p) % 2 == ((x % (p * (2 * h))) / p) % 2
  {
    DivOfResidue(x, p, 2 * h);
    var q := x / (p * (2 * h));
    assert (2 * h) * q == 2 * (h * q);
    EvenShift((x % (p * (2 * h))) / p, h * q);
  }

  /** Dividing by p after splitting off multiples of p h. */
  lemma DivOfResidue(x: int, p: int, h: int)
    requires p > 0 && h > 0
    ensures x / p == h * (x / (p * h)) + (x % (p * h)) / p
  {
    var m := p * h;
    var q, y := x / m, x % m;
    assert x == m * q + y;
    assert y == p * (y / p) + y % p;
    assert m * q == p * (h * q);
    Distrib(p, h * q, y / p);
    ModUnique(x, p, h * q + y / p, y % p);
  }

  lemma EvenShift(a: int, k: int)
    ensures (a + 2 * k) % 2 == a % 2
  {
    ModUnique(a + 2 * k, 2, a / 2 + k, a % 2);
  }

  /** Bits above position 31 are ignored: the count of x is that of x mod 2^32. */
  lemma {:induction false} CountIgnoresHighBits(x: int, n: nat)
    requires n <= Width
    ensures CountBelow(x, n) == CountBelow(x % Pow(2, Width), n)
  {
    if n > 0 {
      CountIgnoresHighBits(x, n - 1);
      LowBitOfResidue(x, n - 1);
    }
  }

  /**
   * The bit loop of `non_constant_time_operation`. Besides the count it
   * returns how many unit delays (`time.sleep(0.001)`) the loop performed.
   */
  method CountSetBits(inputValue: int) returns (count: nat, delays: nat)
    ensures count == CountBelow(inputValue, Width) && count <= Width
    ensures delays == count
  {
    count, delays := 0, 0;
    for i := 0 to Width
      invariant count == CountBelow(inputValue, i)
      invariant delays == count
    {
      if (inputValue / Pow(2, i)) % 2 == 1 {
        delays := delays + 1;
        count := count + 1;
      }
    }
  }

  // ---------------------------------------------------------------------
  // Insertion-ordered dictionaries
  // ---------------------------------------------------------------------

  /** The distinct elements of s in order of first appearance: the key order of a dict filled from s. */
  function Dedup<T(==,!new)>(s: seq<T>): (d: seq<T>)
    ensures forall x :: x in d <==> x in s
    ensures |d| <= |s|
  {
    if s == [] then []
    else
      var d := Dedup(s[..|s| - 1]);
      if s[|s| - 1] in d then d else d + [s[|s| - 1]]
  }

  ghost predicate Distinct<T>(s: seq<T>)
  {
    forall i, j :: 0 <= i < j < |s| ==> s[i] != s[j]
  }

  /** The position of the first occurrence of x in s. */
  function FirstIndex<T(==,!new)>(s: seq<T>, x: T): (i: nat)
    requires x in s
    ensures i < |s| && s[i] == x && x !in s[..i]
  {
    if s[0] == x then 0 else 1 + FirstIndex(s[1..], x)
  }

  lemma {:induction false} FirstIndexOfPrefix<T(!new)>(s: seq<T>, x: T)
    requires s != [] && x in s[..|s| - 1]
    ensures FirstIndex(s, x) == FirstIndex(s[..|s| - 1], x)
  {
    var p := s[..|s| - 1];
    if s[0] != x {
      assert p == [p[0]] + p[1..];
      assert s[1..][..|s| - 2] == p[1..];
      FirstIndexOfPrefix(s[1..], x);
    }
  }

  /** Dedup has no repeats and lists its elements by increasing first occurrence. */
  lemma {:induction false} DedupOrdered<T(!new)>(s: seq<T>)
    ensures Distinct(Dedup(s))
    ensures forall i, j :: 0 <= i < j < |Dedup(s)| ==> FirstIndex(s, Dedup(s)[i]) < FirstIndex(s, Dedup(s)[j])
  {
    if s != [] {
      var p := s[..|s| - 1];
      var x := s[|s| - 1];
      var d := Dedup(p);
      DedupOrdered(p);
      forall y | y in d ensures FirstIndex(s, y) == FirstIndex(p, y) {
        FirstIndexOfPrefix(s, y);
      }
      if x !in d {
        assert x !in p;
        assert FirstIndex(s, x) == |s| - 1;
        forall y | y in d ensures FirstIndex(s, y) < |s| - 1 {
          assert FirstIndex(p, y) < |p|;
        }
        var d' := d + [x];
        assert forall y :: y in d' ==> y in s;
        forall i, j | 0 <= i < j < |d'| ensures FirstIndex(s, d'[i]) < FirstIndex(s, d'[j]) {
          assert d'[i] in d;
          if j < |d| {
            assert d'[i] == d[i] && d'[j] == d[j];
          }
        }
      }
    }
  }

  /** The set of elements of s. */
  ghost function Elements<T>(s: seq<T>): set<T>
  {
    set x | x in s
  }

  /** The number of distinct elements. */
  lemma DedupCardinality<T(!new)>(s: seq<T>)
    ensures |Dedup(s)| == |Elements(s)|
  {
    DedupOrdered(s);
    var d := Dedup(s);
    assert Elements(s) == Elements(d);
    DistinctCardinality(d);
  }

  lemma {:induction false} DistinctCardinality<T(!new)>(d: seq<T>)
    requires Distinct(d)
    ensures |Elements(d)| == |d|
  {
    if d != [] {
      var p := d[..|d| - 1];
      assert Distinct(p);
      DistinctCardinality(p);
      assert Elements(d) == Elements(p) + {d[|d| - 1]};
      assert d[|d| - 1] !in Elements(p);
    }
  }

  // ---------------------------------------------------------------------
  // Collecting the samples
  // ---------------------------------------------------------------------

  /** One entry of `timing_data`: (bit_count, time_taken). */
  datatype Sample = Sample(bitCount: nat, time: real)

  /** `timing_data`: a dict from input value to sample. */
  datatype TimingData = TimingData(order: seq<int>, entries: map<int, Sample>)

  /** The dict invariant: distinct keys in insertion order, exactly the map's keys. */
  ghost predicate WellFormed(data: TimingData)
  {
    && Distinct(data.order)
    && (forall k :: k in data.entries <==> k in data.order)
    && (forall i :: 0 <= i < |data.order| ==> data.order[i] in data.entries)
  }

  /** `timing_data[key] = sample`: a new key goes last, an existing key keeps its place. */
  function Store(data: TimingData, key: int, sample: Sample): (r: TimingData)
    ensures r.entries == data.entries[key := sample]
    ensures data.order <= r.order && |r.order| <= |data.order| + 1
    ensures WellFormed(data) && key in data.entries ==> r.order == data.order
    ensures WellFormed(data) ==> WellFormed(r)
  {
    if key in data.entries then TimingData(data.order, data.entries[key := sample])
    else TimingData(data.order + [key], data.entries[key := sample])
  }

  /** The dict `collect_timing_data` builds from the drawn inputs and the measured times. */
  function Collected(inputs: seq<int>, times: seq<real>): (c: TimingData)
    requires |inputs| == |times|
    ensures |c.order| <= |inputs|
    ensures forall k :: k in c.entries <==> k in inputs
    ensures forall k :: k in c.entries ==> c.entries[k].bitCount == CountBelow(k, Width)
  {
    if inputs == [] then TimingData([], map[])
    else
      var n := |inputs| - 1;
      assert inputs == inputs[..n] + [inputs[n]];
      Store(Collected(inputs[..n], times[..n]), inputs[n], Sample(CountBelow(inputs[n], Width), times[n]))
  }

  /**
   * `collect_timing_data(num_samples)`. Sample i is the drawn input inputs[i]
   * and the measured time times[i].
   */
  method CollectTimingData(numSamples: nat, inputs: seq<int>, times: seq<real>) returns (data: TimingData)
    requires |inputs| == numSamples && |times| == numSamples
    requires forall i :: 0 <= i < numSamples ==> 0 <= inputs[i] <= MaxInput
    ensures data == Collected(inputs, times)
    ensures WellFormed(data) && |data.order| <= numSamples
    ensures data.order == Dedup(inputs)
    ensures forall k :: k in data.entries ==> data.entries[k].bitCount == CountBelow(k, Width)
  {
    data := TimingData([], map[]);
    for i := 0 to numSamples
      invariant data == Collected(inputs[..i], times[..i])
    {
      var bitCount, delays := CountSetBits(inputs[i]);
      assert inputs[..i + 1][..i] == inputs[..i] && times[..i + 1][..i] == times[..i];
      data := Store(data, inputs[i], Sample(bitCount, times[i]));
    }
    assert inputs[..numSamples] == inputs && times[..numSamples] == times;
    CollectedShape(inputs, times);
  }

  /** The collected dict is well formed, keyed in first-appearance order, with correct bit counts. */
  lemma {:induction false} CollectedShape(inputs: seq<int>, times: seq<real>)
    requires |inputs| == |times|
    ensures WellFormed(Collected(inputs, times))
    ensures Collected(inputs, times).order == Dedup(inputs)
    ensures forall k :: k in Collected(inputs, times).entries ==>
              Collected(inputs, times).entries[k].bitCount == CountBelow(k, Width)
  {
    DedupOrdered(inputs);
    if inputs != [] {
      var n := |inputs| - 1;
      CollectedShape(inputs[..n], times[..n]);
    }
  }

  /** A repeated input keeps the measurement of its last occurrence. */
  lemma {:induction false} LastMeasurementKept(inputs: seq<int>, times: seq<real>, j: nat)
    requires |inputs| == |times| && j < |inputs|
    requires forall j' :: j < j' < |inputs| ==> inputs[j'] != inputs[j]
    ensures inputs[j] in Collected(inputs, times).entries
    ensures Collected(inputs, times).entries[inputs[j]] == Sample(CountBelow(inputs[j], Width), times[j])
  {
    var n := |inputs| - 1;
    if j < n {
      CollectedShape(inputs[..n], times[..n]);
      LastMeasurementKept(inputs[..n], times[..n], j);
    }
  }

  // ---------------------------------------------------------------------
  // Grouping by bit count, averages and the verdict
  // ---------------------------------------------------------------------

  /** The bit counts of the entries, in the dict's order. */
  function BitCounts(order: seq<int>, entries: map<int, Sample>): (bc: seq<nat>)
    requires forall i :: 0 <= i < |order| ==> order[i] in entries
    ensures |bc| == |order|
  {
    if order == [] then []
    else
      var n := |order| - 1;
      BitCounts(order[..n], entries) + [entries[order[n]].bitCount]
  }

  /** The times of the entries whose bit count is b, in the dict's order. */
  function TimesWith(order: seq<int>, entries: map<int, Sample>, b: nat): (t: seq<real>)
    requires forall i :: 0 <= i < |order| ==> order[i] in entries
    ensures |t| <= |order|
  {
    if order == [] then []
    else
      var n := |order| - 1;
      var s := entries[order[n]];
      TimesWith(order[..n], entries, b) + (if s.bitCount == b then [s.time] else [])
  }

  lemma {:induction false} TimesWithEmpty(order: seq<int>, entries: map<int, Sample>, b: nat)
    requires forall i :: 0 <= i < |order| ==> order[i] in entries
    ensures TimesWith(order, entries, b) == [] <==> b !in BitCounts(order, entries)
  {
    if order != [] {
      TimesWithEmpty(order[..|order| - 1], entries, b);
    }
  }

  /** Every entry's time is in the group of its own bit count. */
  lemma {:induction false} TimeInOwnGroup(order: seq<int>, entries: map<int, Sample>, i: nat)
    requires forall j :: 0 <= j < |order| ==> order[j] in entries
    requires i < |order|
    ensures entries[order[i]].time in TimesWith(order, entries, entries[order[i]].bitCount)
  {
    var n := |order| - 1;
    if i < n {
      TimeInOwnGroup(order[..n], entries, i);
    }
  }

  /** Every time in group b is the time of an entry whose bit count is b. */
  lemma {:induction false} GroupHoldsOnlyItsBitCount(order: seq<int>, entries: map<int, Sample>, b: nat, t: real)
    requires forall j :: 0 <= j < |order| ==> order[j] in entries
    requires t in TimesWith(order, entries, b)
    ensures exists j :: 0 <= j < |order| && entries[order[j]].bitCount == b && entries[order[j]].time == t
  {
    var n := |order| - 1;
    var p := order[..n];
    if t in TimesWith(p, entries, b) {
      GroupHoldsOnlyItsBitCount(p, entries, b, t);
      var j :| 0 <= j < |p| && entries[p[j]].bitCount == b && entries[p[j]].time == t;
      assert order[j] == p[j];
    } else {
      assert entries[order[n]].bitCount == b && entries[order[n]].time == t;
    }
  }

  /** `grouped_data`: a dict from bit count to the list of times. */
  datatype Groups = Groups(keys: seq<nat>, times: map<nat, seq<real>>)

  /**
   * The first loop of `analyze_timing_data`: every sample's time goes to the
   * group of its bit count, groups appear in first-appearance order of their
   * bit counts, and each group lists its times in the dict's order.
   */
  method GroupByBitCount(data: TimingData) returns (g: Groups)
    requires WellFormed(data)
    ensures g.keys == Dedup(BitCounts(data.order, data.entries))
    ensures forall b :: b in g.times <==> b in g.keys
    ensures forall b :: b in g.times ==> g.times[b] == TimesWith(data.order, data.entries, b)
  {
    g := Groups([], map[]);
    var order := data.order;
    for i := 0 to |order|
      invariant g.keys == Dedup(BitCounts(order[..i], data.entries))
      invariant forall b :: b in g.times <==> b in g.keys
      invariant forall b :: b in g.times ==> g.times[b] == TimesWith(order[..i], data.entries, b)
    {
      var sample := data.entries[order[i]];
      var bitCount, timeTaken := sample.bitCount, sample.time;
      assert order[..i + 1][..i] == order[..i];
      assert BitCounts(order[..i + 1], data.entries) == BitCounts(order[..i], data.entries) + [bitCount];
      assert forall b :: TimesWith(order[..i + 1], data.entries, b) ==
                         TimesWith(order[..i], data.entries, b) + (if bitCount == b then [timeTaken] else []);
      if bitCount !in g.times {
        TimesWithEmpty(order[..i], data.entries, bitCount);
        g := Groups(g.keys + [bitCount], g.times[bitCount := []]);
      }
      g := g.(times := g.times[bitCount := g.times[bitCount] + [timeTaken]]);
    }
    assert order[..|order|] == order;
  }

  /** The group sizes add up to the number of entries. */
  function GroupTotal(keys: seq<nat>, order: seq<int>, entries: map<int, Sample>): nat
    requires forall i :: 0 <= i < |order| ==> order[i] in entries
  {
    if keys == [] then 0 else |TimesWith(order, entries, keys[0])| + GroupTotal(keys[1..], order, entries)
  }

  lemma {:induction false} GroupSizesSum(order: seq<int>, entries: map<int, Sample>)
    requires forall i :: 0 <= i < |order| ==> order[i] in entries
    ensures GroupTotal(Dedup(BitCounts(order, entries)), order, entries) == |order|
  {
    if order != [] {
      var n := |order| - 1;
      var p := order[..n];
      var b := entries[order[n]].bitCount;
      var keys := Dedup(BitCounts(p, entries));
      assert BitCounts(order, entries) == BitCounts(p, entries) + [b];
      GroupSizesSum(p, entries);
      DedupOrdered(BitCounts(p, entries));
      GroupTotalStep(keys, p, order, entries, b);
      if b !in keys {
        TimesWithEmpty(p, entries, b);
        GroupTotalAppend(keys, b, order, entries);
      }
    }
  }

  /** Adding one entry of bit count b adds one to the total over keys exactly when b is a key. */
  lemma {:induction false} GroupTotalStep(keys: seq<nat>, p: seq<int>, order: seq<int>, entries: map<int, Sample>, b: nat)
    requires order != [] && p == order[..|order| - 1]
    requires forall i :: 0 <= i < |order| ==> order[i] in entries
    requires entries[order[|order| - 1]].bitCount == b
    requires Distinct(keys)
    ensures GroupTotal(keys, order, entries) == GroupTotal(keys, p, entries) + (if b in keys then 1 else 0)
  {
    if keys != [] {
      assert Distinct(keys[1..]);
      GroupTotalStep(keys[1..], p, order, entries, b);
      assert b in keys[1..] ==> keys[0] != b;
    }
  }

  lemma {:induction false} GroupTotalAppend(keys: seq<nat>, b: nat, order: seq<int>, entries: map<int, Sample>)
    requires forall i :: 0 <= i < |order| ==> order[i] in entries
    ensures GroupTotal(keys + [b], order, entries) == GroupTotal(keys, order, entries) + |TimesWith(order, entries, b)|
  {
    if keys != [] {
      assert (keys + [b])[1..] == keys[1..] + [b];
      GroupTotalAppend(keys[1..], b, order, entries);
    } else {
      assert [b][1..] == [];
    }
  }

  function Sum(s: seq<real>): real
  {
    if s == [] then 0.0 else Sum(s[..|s| - 1]) + s[|s| - 1]
  }

  /** `sum(times) / len(times)`, over the reals. */
  function Average(s: seq<real>): real
    requires s != []
  {
    Sum(s) / (|s| as real)
  }

  /** The second loop of `analyze_timing_data`: the average time of each group, in the groups' order. */
  method AverageTimes(g: Groups) returns (averages: seq<real>)
    requires forall b :: b in g.keys ==> b in g.times && g.times[b] != []
    ensures |averages| == |g.keys|
    ensures forall i :: 0 <= i < |g.keys| ==> averages[i] == Average(g.times[g.keys[i]])
  {
    averages := [];
    for i := 0 to |g.keys|
      invariant |averages| == i
      invariant forall j :: 0 <= j < i ==> averages[j] == Average(g.times[g.keys[j]])
    {
      var times := g.times[g.keys[i]];
      averages := averages + [Sum(times) / (|times| as real)];
    }
  }

  datatype Verdict = NotEnoughData | SideChannelDetected | NoClearCorrelation

  /** Each value is at most the next one. */
  ghost predicate AdjacentNonDecreasing(s: seq<real>)
  {
    forall i :: 0 <= i < |s| - 1 ==> s[i] <= s[i + 1]
  }

  /** Every value is at most every later one. */
  ghost predicate NonDecreasing(s: seq<real>)
  {
    forall i, j :: 0 <= i < j < |s| ==> s[i] <= s[j]
  }

  /** Checking adjacent pairs is checking all pairs. */
  lemma AdjacentSuffices(s: seq<real>)
    ensures AdjacentNonDecreasing(s) <==> NonDecreasing(s)
  {
    if AdjacentNonDecreasing(s) {
      forall i, j | 0 <= i < j < |s| ensures s[i] <= s[j] {
        AdjacentChain(s, i, j);
      }
    }
  }

  lemma {:induction false} AdjacentChain(s: seq<real>, i: nat, j: nat)
    requires AdjacentNonDecreasing(s) && i <= j < |s|
    ensures s[i] <= s[j]
    decreases j - i
  {
    if i < j {
      AdjacentChain(s, i + 1, j);
    }
  }

  /** The verdict of `analyze_timing_data`, from the averages in the groups' order. */
  function Judge(averages: seq<real>): (v: Verdict)
    ensures v == NotEnoughData <==> |averages| < 2
    ensures v == SideChannelDetected <==> |averages| >= 2 && NonDecreasing(averages)
    ensures v == NoClearCorrelation <==> |averages| >= 2 && !NonDecreasing(averages)
  {
    AdjacentSuffices(averages);
    if |averages| > 1 then
      if forall i :: 0 <= i < |averages| - 1 ==> averages[i] <= averages[i + 1] then SideChannelDetected
      else NoClearCorrelation
    else NotEnoughData
  }

  /**
   * `analyze_timing_data`: groups the entries by bit count, averages each
   * group and judges the averages in the order the bit counts first appear
   * (not sorted order).
   */
  method AnalyzeTimingData(data: TimingData) returns (bitCounts: seq<nat>, averages: seq<real>, verdict: Verdict)
    requires WellFormed(data)
    ensures bitCounts == Dedup(BitCounts(data.order, data.entries))
    ensures |averages| == |bitCounts|
    ensures forall i :: 0 <= i < |bitCounts| ==>
              && TimesWith(data.order, data.entries, bitCounts[i]) != []
              && averages[i] == Average(TimesWith(data.order, data.entries, bitCounts[i]))
    ensures verdict == NotEnoughData <==> |bitCounts| < 2
    ensures verdict == SideChannelDetected <==> |bitCounts| >= 2 && NonDecreasing(averages)
    ensures verdict == NoClearCorrelation <==> |bitCounts| >= 2 && !NonDecreasing(averages)
  {
    var g := GroupByBitCount(data);
    forall b | b in g.keys ensures g.times[b] != [] {
      TimesWithEmpty(data.order, data.entries, b);
    }
    averages := AverageTimes(g);
    bitCounts := g.keys;
    verdict := Judge(averages);
    AdjacentSuffices(averages);
  }

  /** "Not enough data" exactly when all entries share one bit count (or there are none). */
  lemma NotEnoughDataIffOneBitCount(data: TimingData)
    requires WellFormed(data)
    ensures |Dedup(BitCounts(data.order, data.entries))| < 2 <==>
            |Elements(BitCounts(data.order, data.entries))| < 2
  {
    DedupCardinality(BitCounts(data.order, data.entries));
  }

  /**
   * The averages are judged in first-appearance order: entries with 5 set
   * bits first and 3 set bits second, taking 1.0 and 2.0, are reported as a
   * side channel although time falls as the bit count rises.
   */
  lemma FirstAppearanceNotSorted()
    ensures
      var data := TimingData([31, 7], map[31 := Sample(5, 1.0), 7 := Sample(3, 2.0)]);
      && BitCounts(data.order, data.entries) == [5, 3]
      && Judge([Average(TimesWith(data.order, data.entries, 5)), Average(TimesWith(data.order, data.entries, 3))])
         == SideChannelDetected
  {
    ExampleGroups();
    assert Average([1.0]) == 1.0 && Average([2.0]) == 2.0 by {
      assert [1.0][..0] == [] && [2.0][..0] == [];
    }
    RisingPairDetected();
  }

  /** The bit counts and groups of the two-entry example. */
  lemma ExampleGroups()
    ensures var e := map[31 := Sample(5, 1.0), 7 := Sample(3, 2.0)];
            && BitCounts([31, 7], e) == [5, 3]
            && TimesWith([31, 7], e, 5) == [1.0]
            && TimesWith([31, 7], e, 3) == [2.0]
  {
    var e := map[31 := Sample(5, 1.0), 7 := Sample(3, 2.0)];
    assert [31, 7][..1] == [31] && [31][..0] == [];
    assert BitCounts([31], e) == [5];
    assert TimesWith([31], e, 5) == [1.0] && TimesWith([31], e, 3) == [];
  }

  /** Two averages that do not decrease are judged a side channel. */
  lemma RisingPairDetected()
    ensures Judge([1.0, 2.0]) == SideChannelDetected
  {
    assert NonDecreasing([1.0, 2.0]);
  }
}
