/** Linux CPU lists such as `0-3,8,^2`, and the bit masks made from them. */
module CpuMasks {
  import opened Wrappers
  import opened PythonInt
  import opened Sequences

  datatype Error = ValueError

  // ---------------------------------------------------------------- masks

  predicate HasBit(m: nat, i: nat) {
    if i == 0 then m % 2 == 1 else HasBit(m / 2, i - 1)
  }

  /** `1 << i`. */
  function Shifted(i: nat): (m: nat)
    ensures m > 0
  {
    if i == 0 then 1 else 2 * Shifted(i - 1)
  }

  /** `a | b`. */
  function Or(a: nat, b: nat): (m: nat)
    decreases a + b
  {
    if a == 0 && b == 0 then 0
    else 2 * Or(a / 2, b / 2) + if a % 2 == 1 || b % 2 == 1 then 1 else 0
  }

  /** Bit i is what is left of the number, halved i times, by its last binary digit. */
  lemma {:induction false} HasBitIs(m: nat, i: nat)
    ensures HasBit(m, i) <==> (m / Shifted(i)) % 2 == 1
    decreases i
  {
    if i > 0 {
      HasBitIs(m / 2, i - 1);
      HalfThenRest(m, Shifted(i - 1));
    }
  }

  lemma HalfThenRest(m: nat, p: nat)
    requires p > 0
    ensures m / 2 / p == m / (2 * p)
  {
    var q := m / (2 * p);
    var r := m % (2 * p);
    assert m == q * (2 * p) + r;
    assert m / 2 == q * p + r / 2;
    assert r / 2 < p;
    assert (m / 2) / p == q by {
      assert m / 2 == q * p + r / 2 && 0 <= r / 2 < p;
      QuotientIs(m / 2, p, q, r / 2);
    }
  }

  lemma QuotientIs(n: nat, p: nat, q: nat, r: nat)
    requires p > 0 && n == q * p + r && r < p
    ensures n / p == q
  {
    var q' := n / p;
    assert n == q' * p + n % p;
    if q' > q {
      Multiples(q + 1, q', p);
    } else if q' < q {
      Multiples(q' + 1, q, p);
    }
  }

  lemma Multiples(a: nat, b: nat, p: nat)
    requires 0 < a <= b
    ensures a * p <= b * p && a * p == (a - 1) * p + p
  {
  }

  /** How many bits are set. */
  function Popcount(m: nat): nat {
    if m == 0 then 0 else m % 2 + Popcount(m / 2)
  }

  lemma OrHalves(a: nat, b: nat)
    ensures Or(a, b) / 2 == Or(a / 2, b / 2)
    ensures Or(a, b) % 2 == 1 <==> a % 2 == 1 || b % 2 == 1
  {
  }

  lemma {:induction false} OrBits(a: nat, b: nat, i: nat)
    ensures HasBit(Or(a, b), i) <==> HasBit(a, i) || HasBit(b, i)
    decreases i
  {
    OrHalves(a, b);
    if i > 0 {
      OrBits(a / 2, b / 2, i - 1);
    }
  }

  lemma {:induction false} ShiftedBits(i: nat, j: nat)
    ensures HasBit(Shifted(i), j) <==> i == j
    decreases j
  {
    if j > 0 {
      if i == 0 {
        ZeroBits(j - 1);
      } else {
        ShiftedBits(i - 1, j - 1);
      }
    }
  }

  lemma {:induction false} ZeroBits(j: nat)
    ensures !HasBit(0, j)
  {
    if j > 0 {
      ZeroBits(j - 1);
    }
  }

  lemma {:induction false} OrZero(a: nat)
    ensures Or(a, 0) == a
  {
    if a > 0 {
      OrZero(a / 2);
    }
  }

  lemma {:induction false} PopcountAdd(m: nat, i: nat)
    ensures Popcount(Or(m, Shifted(i))) == Popcount(m) + if HasBit(m, i) then 0 else 1
    decreases i
  {
    OrHalves(m, Shifted(i));
    if i == 0 {
      OrZero(m / 2);
    } else {
      PopcountAdd(m / 2, i - 1);
    }
  }

  function MaskOf(cores: seq<nat>): nat {
    if cores == [] then 0 else Or(MaskOf(cores[..|cores| - 1]), Shifted(cores[|cores| - 1]))
  }

  /** The mask denotes the list: its bits are exactly the listed cores. */
  lemma {:induction false} MaskBits(cores: seq<nat>, i: nat)
    ensures HasBit(MaskOf(cores), i) <==> i in cores
  {
    if cores == [] {
      ZeroBits(i);
    } else {
      var init, last := cores[..|cores| - 1], cores[|cores| - 1];
      MaskBits(init, i);
      OrBits(MaskOf(init), Shifted(last), i);
      ShiftedBits(last, i);
      assert cores == init + [last];
    }
  }

  /** A mask has at most one bit per listed core, and one for each exactly when none is listed twice. */
  lemma {:induction false} MaskSize(cores: seq<nat>)
    ensures Popcount(MaskOf(cores)) <= |cores|
    ensures Popcount(MaskOf(cores)) == |cores| <==> NoDuplicates(cores)
  {
    if cores != [] {
      var init, last := cores[..|cores| - 1], cores[|cores| - 1];
      MaskSize(init);
      PopcountAdd(MaskOf(init), last);
      MaskBits(init, last);
      if last in init {
        var i :| 0 <= i < |init| && init[i] == last;
        assert cores[i] == cores[|cores| - 1];
      } else {
        assert NoDuplicates(init) ==> NoDuplicates(cores);
      }
    }
  }

  /** `cores[:n]`; no number takes all, a negative one drops that many from the end. */
  function Slice(cores: seq<nat>, n: Option<int>): (r: seq<nat>)
    ensures r <= cores
    ensures n.Some? && n.value >= 0 ==> |r| <= n.value
    ensures |r| == if n.None? then |cores|
                   else if n.value >= 0 then (if n.value < |cores| then n.value else |cores|)
                   else if |cores| + n.value > 0 then |cores| + n.value else 0
  {
    if n.None? || n.value >= |cores| then cores
    else if n.value >= 0 then cores[..n.value]
    else if -n.value <= |cores| then cores[..|cores| + n.value]
    else []
  }

  function Taken(nodes: seq<seq<nat>>, n: Option<int>): seq<nat> {
    if nodes == [] then [] else Taken(nodes[..|nodes| - 1], n) + Slice(nodes[|nodes| - 1], n)
  }

  function SumTaken(nodes: seq<seq<nat>>, n: Option<int>): nat {
    if nodes == [] then 0 else SumTaken(nodes[..|nodes| - 1], n) + |Slice(nodes[|nodes| - 1], n)|
  }

  lemma {:induction false} TakenSize(nodes: seq<seq<nat>>, n: Option<int>)
    ensures |Taken(nodes, n)| == SumTaken(nodes, n)
    ensures n.Some? && n.value >= 0 ==> SumTaken(nodes, n) <= |nodes| * n.value
  {
    if nodes != [] {
      TakenSize(nodes[..|nodes| - 1], n);
      if n.Some? && n.value >= 0 {
        assert (|nodes| - 1) * n.value + n.value == |nodes| * n.value;
      }
    }
  }

  /** Some node has the core at a place that is taken: for n >= 0 one of its first n. */
  ghost predicate TakesCore(nodes: seq<seq<nat>>, n: Option<int>, core: nat) {
    exists i, j :: 0 <= i < |nodes| && IsTaken(|nodes[i]|, n, j) && nodes[i][j] == core
  }

  lemma {:induction false} TakenMeans(nodes: seq<seq<nat>>, n: Option<int>, core: nat)
    ensures core in Taken(nodes, n) <==> TakesCore(nodes, n, core)
    decreases |nodes|
  {
    if nodes != [] {
      var m := |nodes| - 1;
      TakenMeans(nodes[..m], n, core);
      SliceMeans(nodes[m], n, core);
      TakesCoreStep(nodes, n, core);
    }
  }

  lemma SliceMeans(cores: seq<nat>, n: Option<int>, core: nat)
    ensures core in Slice(cores, n) <==> exists j :: IsTaken(|cores|, n, j) && cores[j] == core
  {
    var slice := Slice(cores, n);
    if j :| 0 <= j < |slice| && slice[j] == core {
      SliceAt(cores, n, j);
    } else {
      forall j | IsTaken(|cores|, n, j) ensures cores[j] != core {
        SliceAt(cores, n, j);
      }
    }
  }

  lemma TakesCoreStep(nodes: seq<seq<nat>>, n: Option<int>, core: nat)
    requires nodes != []
    ensures var rest, last := nodes[..|nodes| - 1], nodes[|nodes| - 1];
            TakesCore(nodes, n, core) <==>
            TakesCore(rest, n, core) || exists j :: IsTaken(|last|, n, j) && last[j] == core
  {
    var m := |nodes| - 1;
    var rest := nodes[..m];
    if TakesCore(nodes, n, core) {
      var i, j :| 0 <= i < |nodes| && IsTaken(|nodes[i]|, n, j) && nodes[i][j] == core;
      if i < m {
        assert rest[i] == nodes[i];
      }
    }
    if TakesCore(rest, n, core) {
      var i, j :| 0 <= i < |rest| && IsTaken(|rest[i]|, n, j) && rest[i][j] == core;
      assert nodes[i] == rest[i];
    }
  }

  /** Position `j` of a node with `size` cores is among those taken. */
  predicate IsTaken(size: nat, n: Option<int>, j: int) {
    0 <= j < size && (n.Some? ==> if n.value >= 0 then j < n.value else j < size + n.value)
  }

  /** No core is taken at two places. */
  ghost predicate TakenOnce(nodes: seq<seq<nat>>, n: Option<int>) {
    forall i, j, k, l ::
      0 <= i < |nodes| && IsTaken(|nodes[i]|, n, j) && 0 <= k < |nodes| && IsTaken(|nodes[k]|, n, l) ==>
        (nodes[i][j] == nodes[k][l] ==> i == k && j == l)
  }

  lemma NoDuplicatesAppend(a: seq<nat>, b: seq<nat>)
    ensures NoDuplicates(a + b) <==> NoDuplicates(a) && NoDuplicates(b) && forall x :: x in a ==> x !in b
  {
    var s := a + b;
    if NoDuplicates(s) {
      forall i, j | 0 <= i < j < |a| ensures a[i] != a[j] {
        assert s[i] != s[j];
      }
      forall i, j | 0 <= i < j < |b| ensures b[i] != b[j] {
        assert s[|a| + i] != s[|a| + j];
      }
      forall i, j | 0 <= i < |a| && 0 <= j < |b| ensures a[i] != b[j] {
        assert s[i] != s[|a| + j];
      }
    } else {
      var i, j :| 0 <= i < j < |s| && s[i] == s[j];
      if j < |a| {
        assert a[i] == a[j];
      } else if i >= |a| {
        assert b[i - |a|] == b[j - |a|];
      } else {
        assert a[i] in a && b[j - |a|] in b && a[i] == b[j - |a|];
      }
    }
  }

  lemma {:induction false} TakenOnceIff(nodes: seq<seq<nat>>, n: Option<int>)
    ensures TakenOnce(nodes, n) <==> NoDuplicates(Taken(nodes, n))
    decreases |nodes|
  {
    if nodes != [] {
      var rest, last := nodes[..|nodes| - 1], nodes[|nodes| - 1];
      TakenOnceIff(rest, n);
      NoDuplicatesAppend(Taken(rest, n), Slice(last, n));
      TakenOnceStep(nodes, n);
    }
  }

  lemma TakenOnceStep(nodes: seq<seq<nat>>, n: Option<int>)
    requires nodes != []
    ensures var rest, last := nodes[..|nodes| - 1], nodes[|nodes| - 1];
            TakenOnce(nodes, n) <==>
            && TakenOnce(rest, n) && NoDuplicates(Slice(last, n))
            && forall x :: x in Taken(rest, n) ==> x !in Slice(last, n)
  {
    var rest, last := nodes[..|nodes| - 1], nodes[|nodes| - 1];
    if TakenOnce(nodes, n) {
      TakenOnceSplits(nodes, n);
    } else if TakenOnce(rest, n) && NoDuplicates(Slice(last, n)) {
      var x := TakenTwiceMeets(nodes, n);
    }
  }

  lemma SliceAt(cores: seq<nat>, n: Option<int>, j: int)
    ensures IsTaken(|cores|, n, j) <==> 0 <= j < |Slice(cores, n)|
    ensures IsTaken(|cores|, n, j) ==> Slice(cores, n)[j] == cores[j]
  {
  }

  lemma TakenOnceSplits(nodes: seq<seq<nat>>, n: Option<int>)
    requires nodes != [] && TakenOnce(nodes, n)
    ensures var rest, slice := nodes[..|nodes| - 1], Slice(nodes[|nodes| - 1], n);
            TakenOnce(rest, n) && NoDuplicates(slice) && forall x :: x in Taken(rest, n) ==> x !in slice
  {
    var m := |nodes| - 1;
    var rest, slice := nodes[..m], Slice(nodes[m], n);
    forall j, l | 0 <= j < l < |slice| ensures slice[j] != slice[l] {
      SliceAt(nodes[m], n, j);
      SliceAt(nodes[m], n, l);
    }
    forall x | x in Taken(rest, n) ensures x !in slice {
      TakenMeans(rest, n, x);
      var i, j :| 0 <= i < |rest| && IsTaken(|rest[i]|, n, j) && rest[i][j] == x;
      assert nodes[i] == rest[i];
      forall l | 0 <= l < |slice| ensures slice[l] != x {
        SliceAt(nodes[m], n, l);
      }
    }
  }

  lemma TakenTwiceMeets(nodes: seq<seq<nat>>, n: Option<int>) returns (x: nat)
    requires nodes != [] && !TakenOnce(nodes, n)
    requires TakenOnce(nodes[..|nodes| - 1], n) && NoDuplicates(Slice(nodes[|nodes| - 1], n))
    ensures x in Taken(nodes[..|nodes| - 1], n) && x in Slice(nodes[|nodes| - 1], n)
  {
    var i, j, k, l :| 0 <= i < |nodes| && IsTaken(|nodes[i]|, n, j) && 0 <= k < |nodes| && IsTaken(|nodes[k]|, n, l)
                      && nodes[i][j] == nodes[k][l] && !(i == k && j == l);
    x := nodes[i][j];
    if i < |nodes| - 1 {
      PlacesMeet(nodes, n, i, j, k, l);
    } else {
      PlacesMeet(nodes, n, k, l, i, j);
    }
  }

  lemma PlacesMeet(nodes: seq<seq<nat>>, n: Option<int>, i: nat, j: nat, k: nat, l: nat)
    requires i < |nodes| && IsTaken(|nodes[i]|, n, j) && k < |nodes| && IsTaken(|nodes[k]|, n, l)
    requires nodes[i][j] == nodes[k][l] && !(i == k && j == l) && (i < |nodes| - 1 || k == |nodes| - 1)
    requires TakenOnce(nodes[..|nodes| - 1], n) && NoDuplicates(Slice(nodes[|nodes| - 1], n))
    ensures nodes[i][j] in Taken(nodes[..|nodes| - 1], n) && nodes[i][j] in Slice(nodes[|nodes| - 1], n)
  {
    var m := |nodes| - 1;
    if i == m {
      NotTwiceInSlice(nodes[m], n, j, l);
    } else {
      TakenFromNode(nodes[..m], n, i, j, nodes[i]);
      if k < m {
        NotTwiceTaken(nodes, n, i, j, k, l);
      } else {
        SliceAt(nodes[m], n, l);
      }
    }
  }

  lemma NotTwiceInSlice(cores: seq<nat>, n: Option<int>, j: int, l: int)
    requires NoDuplicates(Slice(cores, n)) && IsTaken(|cores|, n, j) && IsTaken(|cores|, n, l)
    ensures cores[j] == cores[l] ==> j == l
  {
    SliceAt(cores, n, j);
    SliceAt(cores, n, l);
  }

  lemma TakenFromNode(nodes: seq<seq<nat>>, n: Option<int>, i: nat, j: int, node: seq<nat>)
    requires i < |nodes| && nodes[i] == node && IsTaken(|node|, n, j)
    ensures node[j] in Taken(nodes, n)
  {
    TakenMeans(nodes, n, node[j]);
  }

  lemma NotTwiceTaken(nodes: seq<seq<nat>>, n: Option<int>, i: nat, j: nat, k: nat, l: nat)
    requires nodes != [] && TakenOnce(nodes[..|nodes| - 1], n) && i < |nodes| - 1 && k < |nodes| - 1
    requires IsTaken(|nodes[i]|, n, j) && IsTaken(|nodes[k]|, n, l) && nodes[i][j] == nodes[k][l]
    ensures i == k && j == l
  {
    var rest := nodes[..|nodes| - 1];
    assert rest[i] == nodes[i] && rest[k] == nodes[k];
  }

  /** How many cores are taken, counted by the sizes of the nodes. */
  function CountTaken(sizes: seq<nat>, n: Option<int>): nat {
    if sizes == [] then 0
    else
      var size := sizes[|sizes| - 1];
      CountTaken(sizes[..|sizes| - 1], n) +
      if n.None? || size <= n.value then size
      else if n.value >= 0 then n.value
      else if size + n.value > 0 then size + n.value else 0
  }

  function Sizes(nodes: seq<seq<nat>>): (sizes: seq<nat>)
    ensures |sizes| == |nodes| && forall i :: 0 <= i < |nodes| ==> sizes[i] == |nodes[i]|
  {
    seq(|nodes|, i requires 0 <= i < |nodes| => |nodes[i]|)
  }

  lemma {:induction false} SumTakenIs(nodes: seq<seq<nat>>, n: Option<int>)
    ensures SumTaken(nodes, n) == CountTaken(Sizes(nodes), n)
  {
    if nodes != [] {
      SumTakenIs(nodes[..|nodes| - 1], n);
      assert Sizes(nodes)[..|nodes| - 1] == Sizes(nodes[..|nodes| - 1]);
    }
  }

  /** The inner loop of both mask computations. */
  method AddCores(start: nat, ghost before: seq<nat>, cores: seq<nat>) returns (mask: nat)
    requires start == MaskOf(before)
    ensures mask == MaskOf(before + cores)
  {
    mask := start;
    assert before + cores[..0] == before;
    for j := 0 to |cores|
      invariant mask == MaskOf(before + cores[..j])
    {
      mask := Or(mask, Shifted(cores[j]));
      assert (before + cores[..j + 1])[..|before| + j] == before + cores[..j];
    }
    assert cores[..|cores|] == cores;
  }

  /** The text is a mask of just these cores, padded to at least two digits when `width` is 4. */
  ghost predicate IsMaskOf(text: string, cores: seq<nat>, width: nat) {
    && |text| >= width
    && ParseHex(text).Some?
    && forall i :: HasBit(ParseHex(text).value, i) <==> i in cores
  }

  lemma MaskTextOf(cores: seq<nat>, width: nat)
    ensures IsMaskOf(FormatHex(MaskOf(cores), width), cores, width)
    ensures ParseHex(FormatHex(MaskOf(cores), width)) == Some(MaskOf(cores))
  {
    ParseFormatHex(MaskOf(cores), width);
    forall i ensures HasBit(MaskOf(cores), i) <==> i in cores {
      MaskBits(cores, i);
    }
  }

  lemma TakenBits(nodes: seq<seq<nat>>, n: Option<int>)
    ensures forall b :: HasBit(MaskOf(Taken(nodes, n)), b) <==> TakesCore(nodes, n, b)
  {
    forall b ensures HasBit(MaskOf(Taken(nodes, n)), b) <==> TakesCore(nodes, n, b) {
      MaskBits(Taken(nodes, n), b);
      TakenMeans(nodes, n, b);
    }
  }

  lemma TakenCounts(nodes: seq<seq<nat>>, n: Option<int>)
    ensures var bits := Popcount(MaskOf(Taken(nodes, n)));
            && bits <= SumTaken(nodes, n) == CountTaken(Sizes(nodes), n)
            && (n.Some? && n.value >= 0 ==> bits <= |nodes| * n.value)
            && (bits == SumTaken(nodes, n) <==> NoDuplicates(Taken(nodes, n)))
            && (bits == SumTaken(nodes, n) <==> TakenOnce(nodes, n))
  {
    MaskSize(Taken(nodes, n));
    TakenSize(nodes, n);
    SumTakenIs(nodes, n);
    TakenOnceIff(nodes, n);
  }

  /** `cpu_mask`: the hexadecimal mask of the first cores of every NUMA node. Its size is at most the sum
      of the cores taken per node, and equals it exactly when no core is taken twice. */
  method CpuMask(nodes: seq<seq<nat>>, n: Option<int>) returns (text: string)
    ensures IsMaskOf(text, Taken(nodes, n), 4)
    ensures text[..2] == "0x" && |text| >= 4 && ParseHex(text).Some?
    ensures forall b :: HasBit(ParseHex(text).value, b) <==> TakesCore(nodes, n, b)
    ensures Popcount(ParseHex(text).value) <= CountTaken(Sizes(nodes), n)
    ensures Popcount(ParseHex(text).value) <= SumTaken(nodes, n)
    ensures n.Some? && n.value >= 0 ==> Popcount(ParseHex(text).value) <= |nodes| * n.value
    ensures Popcount(ParseHex(text).value) == SumTaken(nodes, n) <==> NoDuplicates(Taken(nodes, n))
    ensures Popcount(ParseHex(text).value) == CountTaken(Sizes(nodes), n) <==> TakenOnce(nodes, n)
  {
    var mask := 0;
    for i := 0 to |nodes|
      invariant mask == MaskOf(Taken(nodes[..i], n))
    {
      mask := AddCores(mask, Taken(nodes[..i], n), Slice(nodes[i], n));
      assert nodes[..i + 1][..i] == nodes[..i];
    }
    assert nodes[..|nodes|] == nodes;
    text := FormatHex(mask, 4);
    MaskTextOf(Taken(nodes, n), 4);
    TakenBits(nodes, n);
    TakenCounts(nodes, n);
  }

  /** `pmd_cpu_mask`: the hexadecimal mask of a parsed list. */
  method PmdCpuMask(list: Option<string>) returns (text: Result<string, Error>)
    ensures text.Ok? <==> ParseList(list).Ok?
    ensures text.Ok? ==> IsMaskOf(text.value, ParseList(list).value, 0)
  {
    var cores := ParseCpuList(list);
    if cores.Raise? {
      return Raise(cores.error);
    }
    var mask := AddCores(0, [], cores.value);
    assert [] + cores.value == cores.value;
    MaskTextOf(cores.value, 0);
    return Ok(FormatHex(mask, 0));
  }

  // ---------------------------------------------------------------- CPU lists

  /** One part of the list: cores to add, or one core to take out again. */
  datatype Item = Span(low: nat, high: nat) | Exclude(core: nat)

  /** `range(low, high + 1)`. */
  function Cores(low: nat, high: int): (r: seq<nat>)
    ensures |r| == if low > high then 0 else high - low + 1
    ensures forall i :: 0 <= i < |r| ==> r[i] == low + i
    decreases high - low
  {
    if low > high then [] else [low] + Cores(low + 1, high)
  }

  function RemoveFirst(s: seq<nat>, x: nat): (r: seq<nat>)
    requires x in s
    ensures multiset(r) == multiset(s) - multiset{x}
  {
    if s[0] == x then
      assert s == [s[0]] + s[1..];
      s[1..]
    else
      assert s == [s[0]] + s[1..];
      [s[0]] + RemoveFirst(s[1..], x)
  }

  /** It is the first occurrence that goes, and the rest stays in order. */
  lemma {:induction false} FirstIsRemoved(s: seq<nat>, x: nat) returns (i: nat)
    requires x in s
    ensures i < |s| && s[i] == x && x !in s[..i] && RemoveFirst(s, x) == s[..i] + s[i + 1..]
  {
    if s[0] == x {
      i := 0;
    } else {
      var j := FirstIsRemoved(s[1..], x);
      i := j + 1;
      CutBehind(s, j);
      Regroup([s[0]], s[1..][..j], s[i + 1..]);
    }
  }

  lemma CutBehind(s: seq<nat>, j: nat)
    requires j < |s| - 1
    ensures s[..j + 1] == [s[0]] + s[1..][..j] && s[j + 2..] == s[1..][j + 1..] && s[j + 1] == s[1..][j]
  {
  }

  function Apply(cores: seq<nat>, item: Item): Result<seq<nat>, Error> {
    match item
    case Span(low, high) => Ok(cores + Cores(low, high))
    case Exclude(core) => if core in cores then Ok(RemoveFirst(cores, core)) else Raise(ValueError)
  }

  function Evaluate(items: seq<Item>): Result<seq<nat>, Error> {
    if items == [] then Ok([])
    else
      var before := Evaluate(items[..|items| - 1]);
      if before.Raise? then before else Apply(before.value, items[|items| - 1])
  }

  predicate Allowed(c: char) {
    IsDigit(c) || c == ',' || c == '-' || c == '^'
  }

  /** The pattern `^[0-9,\\-^]*$`: allowed characters, and perhaps one newline at the very end. */
  predicate Matches(text: string) {
    || (forall i :: 0 <= i < |text| ==> Allowed(text[i]))
    || (text != [] && text[|text| - 1] == '\n' && forall i :: 0 <= i < |text| - 1 ==> Allowed(text[i]))
  }

  function IndexOf(s: string, c: char): (i: nat)
    ensures i <= |s| && (i < |s| ==> s[i] == c) && c !in s[..i]
    ensures c in s ==> i < |s|
  {
    if s == [] || s[0] == c then 0
    else
      assert forall n :: 0 < n <= |s| ==> s[..n] == [s[0]] + s[1..][..n - 1];
      1 + IndexOf(s[1..], c)
  }

  /** `text.split(c)`. */
  function Split(s: string, c: char): (parts: seq<string>)
    ensures parts != []
    ensures c in s ==> |parts| > 1
    decreases |s|
  {
    var i := IndexOf(s, c);
    if i == |s| then [s] else [s[..i]] + Split(s[i + 1..], c)
  }

  /** `int` on a part that the pattern lets through: digits, with a newline perhaps behind them. */
  function IntOf(s: string): Option<nat> {
    ParseDigits(if s != [] && s[|s| - 1] == '\n' then s[..|s| - 1] else s)
  }

  function ParseItem(part: string): Result<Item, Error> {
    if '-' in part then
      var ends := Split(part, '-');
      var low, high := IntOf(ends[0]), IntOf(ends[1]);
      if low.None? || high.None? then Raise(ValueError) else Ok(Span(low.value, high.value))
    else if '^' in part then
      var core := IntOf(Split(part, '^')[1]);
      if core.None? then Raise(ValueError) else Ok(Exclude(core.value))
    else
      var core := IntOf(part);
      if core.None? then Raise(ValueError) else Ok(Span(core.value, core.value))
  }

  function ParseParts(parts: seq<string>): Result<seq<nat>, Error> {
    if parts == [] then Ok([])
    else
      var before := ParseParts(parts[..|parts| - 1]);
      if before.Raise? then before
      else
        var item := ParseItem(parts[|parts| - 1]);
        if item.Raise? then Raise(item.error) else Apply(before.value, item.value)
  }

  function ParseList(text: Option<string>): Result<seq<nat>, Error> {
    if text.None? || text.value == [] || !Matches(text.value) then Ok([]) else ParseParts(Split(text.value, ','))
  }

  /** `_parse_cpu_list`. */
  method ParseCpuList(text: Option<string>) returns (r: Result<seq<nat>, Error>)
    ensures r == ParseList(text)
  {
    var cores: seq<nat> := [];
    if text.Some? && text.value != [] && Matches(text.value) {
      var ranges := Split(text.value, ',');
      for i := 0 to |ranges|
        invariant ParseParts(ranges[..i]) == Ok(cores)
      {
        ghost var before := cores;
        assert ranges[..i + 1][..i] == ranges[..i];
        var item := ParseItem(ranges[i]);
        if item.Raise? {
          FailureStays(ranges, i + 1);
          return Raise(item.error);
        }
        match item.value {
          case Span(low, high) => cores := cores + Cores(low, high);
          case Exclude(core) =>
            if core !in cores {
              FailureStays(ranges, i + 1);
              return Raise(ValueError);
            }
            cores := RemoveFirst(cores, core);
        }
      }
      assert ranges[..|ranges|] == ranges;
    }
    return Ok(cores);
  }

  lemma {:induction false} FailureStays(parts: seq<string>, i: nat)
    requires i <= |parts| && ParseParts(parts[..i]).Raise?
    ensures ParseParts(parts) == ParseParts(parts[..i])
    decreases |parts|
  {
    if i < |parts| {
      assert parts[..|parts| - 1][..i] == parts[..i];
      FailureStays(parts[..|parts| - 1], i);
    } else {
      assert parts[..i] == parts;
    }
  }

  // ---------------------------------------------------------------- what is refused

  /** A character of its own kind anywhere, other than one newline at the very end, and the whole text
      counts for nothing. */
  lemma ForeignTextIsEmpty(text: string, i: nat)
    requires i < |text| && !('0' <= text[i] <= '9') && text[i] !in ",-^" && (text[i] != '\n' || i < |text| - 1)
    ensures ParseList(Some(text)) == Ok([])
  {
  }

  /** Any other text that is not empty is read part by part, and one part that does not read is an error,
      wherever it stands. */
  lemma {:induction false} PartsMustRead(parts: seq<string>, i: nat)
    requires i < |parts| && ParseItem(parts[i]).Raise?
    ensures ParseParts(parts).Raise?
    decreases |parts|
  {
    if i < |parts| - 1 {
      PartsMustRead(parts[..|parts| - 1], i);
    }
  }

  lemma OwnTextIsRead(text: string)
    requires text != []
    requires forall i :: 0 <= i < |text| ==>
               '0' <= text[i] <= '9' || text[i] in ",-^" || (text[i] == '\n' && i == |text| - 1)
    ensures ParseList(Some(text)) == ParseParts(Split(text, ','))
  {
    if text[|text| - 1] == '\n' {
      assert forall i :: 0 <= i < |text| - 1 ==> Allowed(text[i]);
    } else {
      assert forall i :: 0 <= i < |text| ==> Allowed(text[i]);
    }
  }

  /** What one part means: numbers on both sides of the first dash are a range, and what follows a second
      dash is ignored; else a number behind the first caret is taken out; else the part is a number. */
  lemma DashMeansRange(a: string, b: string, rest: string)
    requires '-' !in a && '-' !in b
    ensures ParseItem(a + ("-" + b)) ==
            if IntOf(a).Some? && IntOf(b).Some? then Ok(Span(IntOf(a).value, IntOf(b).value)) else Raise(ValueError)
    ensures ParseItem(a + ("-" + (b + ("-" + rest)))) == ParseItem(a + ("-" + b))
  {
    SplitFirst(a, '-', b);
    SplitFirst(b, '-', "");
    SplitFirst(a, '-', b + ("-" + rest));
    SplitFirst(b, '-', rest);
    assert (a + ("-" + b))[|a|] == '-' && (a + ("-" + (b + ("-" + rest))))[|a|] == '-';
  }

  lemma CaretMeansExclusion(a: string, b: string)
    requires '-' !in a && '-' !in b && '^' !in a && '^' !in b
    ensures ParseItem(a + ("^" + b)) == if IntOf(b).Some? then Ok(Exclude(IntOf(b).value)) else Raise(ValueError)
  {
    SplitFirst(a, '^', b);
    SplitFirst(b, '^', "");
    assert (a + ("^" + b))[|a|] == '^';
  }

  lemma PlainMeansCore(a: string)
    requires '-' !in a && '^' !in a
    ensures ParseItem(a) == if IntOf(a).Some? then Ok(Span(IntOf(a).value, IntOf(a).value)) else Raise(ValueError)
    ensures a == "" ==> ParseItem(a) == Raise(ValueError)
  {
  }

  /** A newline behind a number does not count. */
  lemma NewlineIsIgnored(digits: string)
    requires '\n' !in digits
    ensures IntOf(digits + "\n") == IntOf(digits) == ParseDigits(digits)
  {
    assert (digits + "\n")[..|digits|] == digits;
    assert digits != [] ==> digits[|digits| - 1] in digits;
  }

  // ---------------------------------------------------------------- what a list denotes

  /** Lists add up from left to right: the cores of the later ranges stand behind those of the earlier. */
  lemma {:induction false} RangesAddUp(a: seq<Item>, b: seq<Item>)
    requires (forall i :: 0 <= i < |a| ==> a[i].Span?) && forall i :: 0 <= i < |b| ==> b[i].Span?
    ensures Evaluate(a).Ok? && Evaluate(b).Ok? && Evaluate(a + b) == Ok(Evaluate(a).value + Evaluate(b).value)
    decreases |b|
  {
    SpansEvaluate(a);
    SpansEvaluate(b);
    if b == [] {
      assert a + b == a;
      assert Spans(a) + [] == Spans(a);
    } else {
      var init, last := b[..|b| - 1], b[|b| - 1];
      assert (a + b)[..|a + b| - 1] == a + init && (a + b)[|a + b| - 1] == last;
      RangesAddUp(a, init);
      Regroup(Evaluate(a).value, Evaluate(init).value, Cores(last.low, last.high));
    }
  }

  lemma OneRange(low: nat, high: nat, core: nat)
    ensures Evaluate([Span(low, high)]).Ok?
    ensures core in Evaluate([Span(low, high)]).value <==> low <= core <= high
  {
    assert [Span(low, high)][..0] == [];
    var r := Cores(low, high);
    assert Evaluate([Span(low, high)]) == Ok([] + r) && [] + r == r;
    if low <= core <= high {
      assert r[core - low] == core;
    }
  }

  function Spans(items: seq<Item>): (r: seq<nat>) {
    if items == [] then []
    else
      var last := items[|items| - 1];
      Spans(items[..|items| - 1]) + if last.Span? then Cores(last.low, last.high) else []
  }

  function Excludes(cores: seq<nat>): (items: seq<Item>)
    ensures |items| == |cores| && forall i :: 0 <= i < |cores| ==> items[i] == Exclude(cores[i])
  {
    seq(|cores|, i requires 0 <= i < |cores| => Exclude(cores[i]))
  }

  /** Ranges followed by exclusions: the list is accepted exactly when every exclusion meets a core
      that is still there, and what remains are the ranges' cores less one occurrence for each. */
  lemma {:induction false} RangesMinusExclusions(adds: seq<Item>, out: seq<nat>)
    requires forall i :: 0 <= i < |adds| ==> adds[i].Span?
    ensures Evaluate(adds + Excludes(out)).Ok? <==> multiset(out) <= multiset(Spans(adds))
    ensures Evaluate(adds + Excludes(out)).Ok? ==>
              multiset(Evaluate(adds + Excludes(out)).value) == multiset(Spans(adds)) - multiset(out)
    decreases |out|
  {
    if out == [] {
      assert adds + Excludes(out) == adds;
      SpansEvaluate(adds);
    } else {
      var init := out[..|out| - 1];
      RangesMinusExclusions(adds, init);
      LastExclusion(adds, out);
      ExclusionCounts(Evaluate(adds + Excludes(init)), Evaluate(adds + Excludes(out)), multiset(Spans(adds)),
                      multiset(init), out[|out| - 1]);
    }
  }

  /** Taking out one more core, in terms of what is there and what has been taken. */
  lemma ExclusionCounts(before: Result<seq<nat>, Error>, after: Result<seq<nat>, Error>,
                        all: multiset<nat>, taken: multiset<nat>, x: nat)
    requires before.Ok? <==> taken <= all
    requires before.Ok? ==> multiset(before.value) == all - taken
    requires after == if before.Raise? then before
                      else if x in multiset(before.value) then Ok(RemoveFirst(before.value, x)) else Raise(ValueError)
    ensures after.Ok? <==> taken + multiset{x} <= all
    ensures after.Ok? ==> multiset(after.value) == all - (taken + multiset{x})
  {
    OneMore(all, taken, x);
  }

  lemma LastExclusion(adds: seq<Item>, out: seq<nat>)
    requires out != []
    ensures var before, x := Evaluate(adds + Excludes(out[..|out| - 1])), out[|out| - 1];
            Evaluate(adds + Excludes(out)) ==
            if before.Raise? then before
            else if x in multiset(before.value) then Ok(RemoveFirst(before.value, x)) else Raise(ValueError)
    ensures multiset(out) == multiset(out[..|out| - 1]) + multiset{out[|out| - 1]}
  {
    assert out == out[..|out| - 1] + [out[|out| - 1]];
    var all := adds + Excludes(out);
    assert all[..|all| - 1] == adds + Excludes(out[..|out| - 1]);
    assert all[|all| - 1] == Exclude(out[|out| - 1]);
  }

  lemma OneMore(all: multiset<nat>, some: multiset<nat>, x: nat)
    ensures some + multiset{x} <= all ==> some <= all
    ensures some <= all ==> (some + multiset{x} <= all <==> x in all - some)
    ensures all - (some + multiset{x}) == all - some - multiset{x}
  {
  }

  lemma {:induction false} SpansEvaluate(adds: seq<Item>)
    requires forall i :: 0 <= i < |adds| ==> adds[i].Span?
    ensures Evaluate(adds) == Ok(Spans(adds))
  {
    if adds != [] {
      SpansEvaluate(adds[..|adds| - 1]);
    }
  }

  /** With disjoint ranges and no core excluded twice, that is plain set difference. */
  lemma DisjointRangesDenoteDifference(adds: seq<Item>, out: seq<nat>, core: nat)
    requires forall i :: 0 <= i < |adds| ==> adds[i].Span?
    requires NoDuplicates(Spans(adds)) && NoDuplicates(out)
    requires forall x :: x in out ==> x in Spans(adds)
    ensures Evaluate(adds + Excludes(out)).Ok?
    ensures core in Evaluate(adds + Excludes(out)).value <==> core in Spans(adds) && core !in out
  {
    forall x ensures multiset(out)[x] <= multiset(Spans(adds))[x] {
      CountsOne(out, x);
      CountsOne(Spans(adds), x);
    }
    RangesMinusExclusions(adds, out);
    CountsOne(out, core);
    CountsOne(Spans(adds), core);
    var r := Evaluate(adds + Excludes(out)).value;
    var m: multiset<nat> := multiset(r);
    assert core in r <==> core in m;
  }

  // ---------------------------------------------------------------- from text to items

  function ShowItem(item: Item): string {
    match item
    case Span(low, high) => if low == high then ShowNat(low) else ShowNat(low) + ("-" + ShowNat(high))
    case Exclude(core) => "^" + ShowNat(core)
  }

  function ShowList(items: seq<Item>): string
    requires items != []
  {
    if |items| == 1 then ShowItem(items[0]) else ShowItem(items[0]) + ("," + ShowList(items[1..]))
  }

  lemma {:induction false} IndexOfFirst(x: string, c: char, rest: string)
    requires c !in x
    ensures IndexOf(x + ([c] + rest), c) == |x|
    ensures IndexOf(x, c) == |x|
  {
    if x == [] {
      assert x + ([c] + rest) == [c] + rest;
    } else {
      assert (x + ([c] + rest))[1..] == x[1..] + ([c] + rest);
      IndexOfFirst(x[1..], c, rest);
    }
  }

  lemma SplitFirst(x: string, c: char, rest: string)
    requires c !in x
    ensures Split(x + ([c] + rest), c) == [x] + Split(rest, c)
    ensures Split(x, c) == [x]
  {
    IndexOfFirst(x, c, rest);
    var s := x + ([c] + rest);
    assert s[..|x|] == x && s[|x| + 1..] == rest;
  }

  lemma DigitsOnly(n: nat, c: char)
    requires !IsDigit(c)
    ensures c !in ShowNat(n)
  {
  }

  lemma IntOfShown(n: nat)
    ensures IntOf(ShowNat(n)) == Some(n)
  {
    ParseShowNat(n);
  }

  lemma ParseShownSpan(low: nat, high: nat)
    ensures ParseItem(ShowNat(low) + ("-" + ShowNat(high))) == Ok(Span(low, high))
  {
    IntOfShown(low);
    IntOfShown(high);
    DigitsOnly(low, '-');
    DigitsOnly(high, '-');
    SplitFirst(ShowNat(low), '-', ShowNat(high));
    SplitFirst(ShowNat(high), '-', "");
    var part := ShowNat(low) + ("-" + ShowNat(high));
    assert part[|ShowNat(low)|] == '-';
  }

  lemma ParseShownExclusion(core: nat)
    ensures ParseItem("^" + ShowNat(core)) == Ok(Exclude(core))
  {
    IntOfShown(core);
    DigitsOnly(core, '-');
    DigitsOnly(core, '^');
    SplitFirst("", '^', ShowNat(core));
    SplitFirst(ShowNat(core), '^', "");
    var part := "^" + ShowNat(core);
    assert "" + (['^'] + ShowNat(core)) == part;
    assert part[0] == '^';
  }

  /** A printed item reads back as itself. */
  lemma ParseShownItem(item: Item)
    ensures ParseItem(ShowItem(item)) == Ok(item)
  {
    match item {
      case Span(low, high) =>
        if low == high {
          IntOfShown(low);
          DigitsOnly(low, '-');
          DigitsOnly(low, '^');
        } else {
          ParseShownSpan(low, high);
        }
      case Exclude(core) => ParseShownExclusion(core);
    }
  }

  /** Allowed characters, and no comma. */
  predicate IsPart(s: string) {
    forall i :: 0 <= i < |s| ==> Allowed(s[i]) && s[i] != ','
  }

  lemma ShownIsPart(item: Item)
    ensures IsPart(ShowItem(item))
  {
  }

  predicate AllAllowed(s: string) {
    forall i :: 0 <= i < |s| ==> Allowed(s[i])
  }

  lemma {:induction false} ShownIsAllowed(items: seq<Item>)
    requires items != []
    ensures ShowList(items) != [] && AllAllowed(ShowList(items))
    decreases |items|
  {
    ShownIsPart(items[0]);
    if |items| > 1 {
      ShownIsAllowed(items[1..]);
      var a, b := ShowItem(items[0]), ShowList(items[1..]);
      assert AllAllowed(a) && AllAllowed("," + b);
    }
  }

  function ShowAll(items: seq<Item>): (parts: seq<string>)
    ensures |parts| == |items| && forall i :: 0 <= i < |items| ==> parts[i] == ShowItem(items[i])
  {
    seq(|items|, i requires 0 <= i < |items| => ShowItem(items[i]))
  }

  lemma {:induction false} SplitShown(items: seq<Item>)
    requires items != []
    ensures Split(ShowList(items), ',') == ShowAll(items)
    decreases |items|
  {
    NoComma(items[0]);
    if |items| == 1 {
      SplitFirst(ShowItem(items[0]), ',', "");
      assert ShowAll(items) == [ShowItem(items[0])];
    } else {
      SplitShown(items[1..]);
      SplitFirst(ShowItem(items[0]), ',', ShowList(items[1..]));
      ShowAllHead(items);
    }
  }

  lemma ShowAllHead(items: seq<Item>)
    requires items != []
    ensures ShowAll(items) == [ShowItem(items[0])] + ShowAll(items[1..])
  {
  }

  lemma NoComma(item: Item)
    ensures ',' !in ShowItem(item)
  {
  }

  lemma {:induction false} ParseShownParts(items: seq<Item>)
    ensures ParseParts(ShowAll(items)) == Evaluate(items)
    decreases |items|
  {
    if items != [] {
      ParseShownParts(items[..|items| - 1]);
      ParseShownItem(items[|items| - 1]);
      assert ShowAll(items)[..|items| - 1] == ShowAll(items[..|items| - 1]);
    }
  }

  /** The text of a list means its items. */
  lemma ParseShownList(items: seq<Item>)
    requires items != []
    ensures ParseList(Some(ShowList(items))) == Evaluate(items)
  {
    ShownIsAllowed(items);
    SplitShown(items);
    ParseShownParts(items);
  }
}
