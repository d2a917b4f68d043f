/** The leaf enumeration of tests/cpuid/main.c for an arbitrary CPUID function. */
module Cpuid {
  import opened Arith
  import opened Options

  type u32 = x: int | 0 <= x < 0x1_0000_0000

  datatype Regs = Regs(eax: u32, ebx: u32, ecx: u32, edx: u32)
  type Fn = (u32, u32) -> Regs

  const NO_SUBLEAF: u32 := 0xffff_ffff  // ~0U
  const HV: u32 := 0x4000_0000
  const HV2: u32 := 0x4000_0100
  const EXTD: u32 := 0x8000_0000

  predicate XenSignature(r: Regs) {
    r.ebx == 0x566e_6558 && r.ecx == 0x6558_4d4d && r.edx == 0x4d4d_566e
  }

  /** Addition and increment of 32-bit words. */
  function Inc(x: u32): u32 { if x == 0xffff_ffff then 0 else x + 1 }

  function Pow2(k: nat): nat { if k == 0 then 1 else 2 * Pow2(k - 1) }

  predicate Bit(x: nat, k: nat)
  {
    Positive(k);
    x / Pow2(k) % 2 == 1
  }

  lemma Positive(k: nat)
    ensures Pow2(k) > 0
  {
  }

  /** The powers whose bits are set, below 2^n. */
  function BitSum(x: nat, n: nat): nat {
    if n == 0 then 0 else BitSum(x, n - 1) + (if Bit(x, n - 1) then Pow2(n - 1) else 0)
  }

  /** A word is the sum of the powers of two whose bits are set. */
  lemma {:induction false} BitsMakeWord(x: nat, n: nat)
    ensures Pow2(n) > 0 && BitSum(x, n) == x % Pow2(n)
    ensures n == 64 && x < 0x1_0000_0000_0000_0000 ==> BitSum(x, n) == x
    decreases n
  {
    Positive(n);
    if n > 0 {
      BitsMakeWord(x, n - 1);
      BitBelow(x, n - 1);
    }
    if n == 64 {
      Pow2Of64();
    }
  }

  lemma BitBelow(x: nat, k: nat)
    ensures Pow2(k + 1) > 0 && x % Pow2(k + 1) == x % Pow2(k) + (if Bit(x, k) then Pow2(k) else 0)
  {
    Positive(k);
    Positive(k + 1);
    DoubledRemainder(x, Pow2(k));
  }

  lemma DoubledRemainder(x: nat, p: nat)
    requires p > 0
    ensures x % (2 * p) == x % p + (if x / p % 2 == 1 then p else 0)
  {
    var q, r := x / p, x % p;
    var h, b := q / 2, q % 2;
    DivModIdentity(x, p);
    DivModIdentity(q, 2);
    Regroups(h, b, p);
    DivModUnique(x, 2 * p, h, (if b == 1 then p else 0) + r);
  }

  lemma Regroups(h: nat, b: nat, p: nat)
    requires b < 2
    ensures (h * 2 + b) * p == h * (2 * p) + (if b == 1 then p else 0)
  {
    MulAdds(h * 2, b, p);
    MulAssociates(h, 2, p);
  }

  lemma Pow2Of64()
    ensures Pow2(32) == 0x1_0000_0000 && Pow2(64) == 0x1_0000_0000_0000_0000
  {
    assert Pow2(8) == 0x100;
    Pow2Sum(8, 8);
    Pow2Sum(16, 16);
    Pow2Sum(32, 32);
  }

  lemma {:induction false} Pow2Sum(i: nat, j: nat)
    ensures Pow2(i + j) == Pow2(i) * Pow2(j)
    decreases i
  {
    if i > 0 {
      Pow2Sum(i - 1, j);
      MulAssociates(2, Pow2(i - 1), Pow2(j));
    }
  }

  function Letters(x: u32): string {
    [(x % 256) as char, (x / 0x100 % 256) as char, (x / 0x1_0000 % 256) as char, (x / 0x100_0000) as char]
  }

  /** The signature, as it stands in the registers, reads XenVMMXenVMM. */
  lemma SignatureSpells(r: Regs)
    ensures XenSignature(r) <==> Letters(r.ebx) + Letters(r.ecx) + Letters(r.edx) == "XenVMMXenVMM"
  {
    var s := Letters(r.ebx) + Letters(r.ecx) + Letters(r.edx);
    assert "XenVMMXenVMM"[..4] == "XenV" && "XenVMMXenVMM"[4..8] == "MMXe" && "XenVMMXenVMM"[8..] == "nVMM";
    assert s[..4] == Letters(r.ebx) && s[4..8] == Letters(r.ecx) && s[8..] == Letters(r.edx);
    assert s == "XenVMMXenVMM" <==>
           Letters(r.ebx) == "XenV" && Letters(r.ecx) == "MMXe" && Letters(r.edx) == "nVMM";
  }

  // ----- one pass of the loop -----

  /** The local variables of dump_leaves(). */
  datatype Walk = Walk(leaf: u32, subleaf: u32, xstate: nat,
                       maxLeaf: u32, maxL7: u32, maxHv: u32, maxHv2: u32, maxExtd: u32,
                       xenFirst: u32, xenLast: u32)

  const START := Walk(0, NO_SUBLEAF, 0, 0, 0, 0, 0, 0, 0xffff_ffff, 0)

  /** The first set bit from `s` on, or 63. */
  function ScanFrom(bits: nat, s: u32): (r: u32)
    ensures s <= r && (s <= 63 ==> r <= 63) && (r < 63 ==> Bit(bits, r))
    ensures forall k :: s <= k < r ==> !Bit(bits, k)
    decreases 63 - s
  {
    if s < 63 && !Bit(bits, s) then ScanFrom(bits, s + 1) else s
  }

  /** Lines 34-95: record what the leaf reports; the result says whether the walk
      stays in the leaf. */
  function Record(w: Walk, r: Regs): (Walk, bool) {
    if w.leaf == 0 then (w.(maxLeaf := r.eax), false)
    else if w.leaf == 4 then (w.(subleaf := Inc(w.subleaf)), r.eax % 32 != 0)
    else if w.leaf == 7 then
      var max := if w.subleaf == 0 then r.eax else w.maxL7;
      (w.(maxL7 := max, subleaf := Inc(w.subleaf)), Inc(w.subleaf) <= max)
    else if w.leaf == 0xd then
      var bits := if w.subleaf == 0 then r.edx * 0x1_0000_0000 + r.eax else w.xstate;
      var next := ScanFrom(bits, Inc(w.subleaf));
      (w.(xstate := bits, subleaf := next), next < 63)
    else if w.leaf == HV then
      (if XenSignature(r) then w.(maxHv := r.eax, xenFirst := HV, xenLast := r.eax) else w.(maxHv := r.eax), false)
    else if w.leaf == HV2 then
      (if XenSignature(r) then w.(maxHv2 := r.eax, xenFirst := HV2, xenLast := r.eax) else w.(maxHv2 := r.eax), false)
    else if w.leaf == EXTD then (w.(maxExtd := r.eax), false)
    else (w, false)
  }

  predicate XenLeaf(w: Walk, offset: int) {
    w.xenFirst <= w.leaf <= w.xenLast && w.leaf - w.xenFirst == offset
  }

  /** Lines 116-127: the leaf after `leaf`, or None when the walk is over. */
  function NextLeaf(w: Walk): Option<u32> {
    var l0 := Inc(w.leaf);
    var l1 := if 0 < l0 < HV && l0 > w.maxLeaf then HV else l0;
    var l2 := if HV < l1 < HV2 && l1 > w.maxHv then HV2 else l1;
    var l3 := if HV2 < l2 < EXTD && l2 > w.maxHv2 then EXTD else l2;
    if l3 > EXTD && l3 > w.maxExtd then None else Some(l3)
  }

  /** One pass: the variables for the next one, or None at the break. */
  function Next(c: Fn, w: Walk): Option<Walk> {
    var (r, stay) := Record(w, c(w.leaf, w.subleaf));
    if stay then Some(r)
    else if XenLeaf(r, 3) && r.subleaf < 2 then Some(r.(subleaf := Inc(r.subleaf)))
    else
      match NextLeaf(r)
      case None => None
      case Some(leaf) =>
        var n := r.(leaf := leaf);
        Some(n.(subleaf :=
          if leaf == 4 || leaf == 7 || leaf == 0xd || XenLeaf(n, 3) || XenLeaf(n, 4) then 0 else NO_SUBLEAF))
  }

  // ----- what should be visited -----

  function MaxLeaf(c: Fn): u32 { c(0, 0xffff_ffff).eax }
  function MaxHv(c: Fn): u32 { c(0x4000_0000, 0xffff_ffff).eax }
  function MaxHv2(c: Fn): u32 { c(0x4000_0100, 0xffff_ffff).eax }
  function MaxExtd(c: Fn): u32 { c(0x8000_0000, 0xffff_ffff).eax }

  /** The leaves of the four ranges, each up to the maximum it reports. */
  predicate LeafExists(c: Fn, leaf: u32) {
    || leaf == 0 || leaf == 0x4000_0000 || leaf == 0x4000_0100 || leaf == 0x8000_0000
    || (0 < leaf < 0x4000_0000 && leaf <= MaxLeaf(c))
    || (0x4000_0000 < leaf < 0x4000_0100 && leaf <= MaxHv(c))
    || (0x4000_0100 < leaf < 0x8000_0000 && leaf <= MaxHv2(c))
    || (0x8000_0000 < leaf && leaf <= MaxExtd(c))
  }

  /** `leaf` is number `offset` of a block of Xen leaves. */
  predicate IsXenLeaf(c: Fn, leaf: u32, offset: int) {
    || (leaf == HV + offset && XenSignature(c(HV, NO_SUBLEAF)) && leaf <= MaxHv(c))
    || (leaf == HV2 + offset && XenSignature(c(HV2, NO_SUBLEAF)) && leaf <= MaxHv2(c))
  }

  function XstateBits(c: Fn): nat { c(0xd, 0).edx * 0x1_0000_0000 + c(0xd, 0).eax }

  /** The state components: 0 to 31 in one register and 32 to 63 in another. */
  lemma XstateBitsAre(c: Fn, k: nat)
    requires k < 64
    ensures Bit(XstateBits(c), k) <==> if k < 32 then Bit(c(0xd, 0).eax, k) else Bit(c(0xd, 0).edx, k - 32)
  {
    Pow2Of64();
    if k < 32 {
      Pow2Sum(31 - k, k);
      LowBit(c(0xd, 0).edx, c(0xd, 0).eax, Pow2(31 - k), k);
    } else {
      Pow2Sum(k - 32, 32);
      HighBit(c(0xd, 0).edx, c(0xd, 0).eax, k - 32);
    }
  }

  lemma LowBit(high: nat, low: nat, q: nat, k: nat)
    requires 2 * (q * Pow2(k)) == 0x1_0000_0000
    ensures Bit(high * 0x1_0000_0000 + low, k) <==> Bit(low, k)
  {
    Positive(k);
    var p := Pow2(k);
    MulAssociates(2, q, p);
    MulAssociates(high, 2 * q, p);
    MulAdds(high * (2 * q), low / p, p);
    DivModIdentity(low, p);
    DivModUnique(high * 0x1_0000_0000 + low, p, high * (2 * q) + low / p, low % p);
    MulAssociates(high, q, 2);
    EvenAdded(high * q, low / p);
  }

  lemma EvenAdded(m: nat, n: nat)
    ensures (m * 2 + n) % 2 == n % 2
  {
  }

  lemma HighBit(high: nat, low: nat, k: nat)
    requires low < 0x1_0000_0000 && Pow2(k + 32) == Pow2(k) * 0x1_0000_0000
    ensures Bit(high * 0x1_0000_0000 + low, k + 32) <==> Bit(high, k)
  {
    Positive(k);
    var q := Pow2(k);
    DivModIdentity(high, q);
    MulAssociates(high / q, q, 0x1_0000_0000);
    MulOrder(high % q + 1, q + 1, 0x1_0000_0000);
    DivModUnique(high * 0x1_0000_0000 + low, q * 0x1_0000_0000, high / q, (high % q) * 0x1_0000_0000 + low);
  }

  /** The subleaves of a leaf: leaf 4 up to the first of type 0, leaf 7 up to the
      maximum it reports, leaf 0xd subleaf 0 and the valid components among 1 to 62,
      Xen leaves 3 and 4 subleaves 0 to 2 and 0, and otherwise none. */
  predicate SubleafExists(c: Fn, leaf: u32, subleaf: u32) {
    if leaf == 4 then forall k: u32 :: k < subleaf ==> c(4, k).eax % 32 != 0
    else if leaf == 7 then subleaf == 0 || subleaf <= c(7, 0).eax
    else if leaf == 0xd then subleaf == 0 || (subleaf < 63 && Bit(XstateBits(c), subleaf))
    else if IsXenLeaf(c, leaf, 3) then subleaf <= 2
    else if IsXenLeaf(c, leaf, 4) then subleaf == 0
    else subleaf == NO_SUBLEAF
  }

  predicate Expected(c: Fn, leaf: u32, subleaf: u32) {
    LeafExists(c, leaf) && SubleafExists(c, leaf, subleaf)
  }

  /** Lexicographic order. */
  predicate Before(l: u32, s: u32, l': u32, s': u32) { l < l' || (l == l' && s < s') }

  /** The walk is finite exactly under these conditions (see `WalkEndsIff`). */
  ghost predicate Finite(c: Fn) {
    && (MaxLeaf(c) >= 4 ==> exists k: u32 :: c(4, k).eax % 32 == 0)
    && (MaxLeaf(c) >= 7 ==> c(7, 0).eax < 0xffff_ffff)
    && MaxExtd(c) < 0xffff_ffff
  }

  // ----- what the variables hold -----

  /** What has been recorded when the walk is at `w.leaf`; `seen` says whether that
      leaf itself has been recorded. */
  ghost predicate Recorded(c: Fn, w: Walk, seen: bool) {
    && (w.leaf > 0 || seen ==> w.maxLeaf == MaxLeaf(c))
    && (w.leaf > HV || (w.leaf == HV && seen) ==> w.maxHv == MaxHv(c))
    && (w.leaf > HV2 || (w.leaf == HV2 && seen) ==> w.maxHv2 == MaxHv2(c))
    && (w.leaf > EXTD || (w.leaf == EXTD && seen) ==> w.maxExtd == MaxExtd(c))
    && XenRecorded(c, w, seen)
  }

  /** The last block of Xen leaves met so far. */
  ghost predicate XenRecorded(c: Fn, w: Walk, seen: bool) {
    if (w.leaf > HV2 || (w.leaf == HV2 && seen)) && XenSignature(c(HV2, NO_SUBLEAF)) then
      w.xenFirst == HV2 && w.xenLast == MaxHv2(c)
    else if (w.leaf > HV || (w.leaf == HV && seen)) && XenSignature(c(HV, NO_SUBLEAF)) then
      w.xenFirst == HV && w.xenLast == MaxHv(c)
    else w.xenFirst == 0xffff_ffff && w.xenLast == 0
  }

  ghost predicate WalkInv(c: Fn, w: Walk) {
    && Recorded(c, w, false)
    && Expected(c, w.leaf, w.subleaf)
    && (w.leaf == 7 && w.subleaf > 0 ==> w.maxL7 == c(7, 0).eax)
    && (w.leaf == 0xd && w.subleaf > 0 ==> w.xstate == XstateBits(c))
  }

  lemma RecordRecords(c: Fn, w: Walk)
    requires WalkInv(c, w)
    ensures var r := Record(w, c(w.leaf, w.subleaf)).0;
            r.leaf == w.leaf && Recorded(c, r, true)
  {
  }

  lemma XenLeafIs(c: Fn, w: Walk, offset: int)
    requires Recorded(c, w, true) && (offset == 3 || offset == 4)
    ensures XenLeaf(w, offset) <==> IsXenLeaf(c, w.leaf, offset)
  {
  }

  lemma RecordedNext(c: Fn, w: Walk, leaf: u32)
    requires Recorded(c, w, true) && LeafExists(c, leaf) && w.leaf < leaf
    requires forall l: u32 :: w.leaf < l < leaf ==> !LeafExists(c, l)
    ensures Recorded(c, w.(leaf := leaf), false)
    ensures forall offset: int :: offset == 3 || offset == 4 ==>
              (XenLeaf(w.(leaf := leaf), offset) <==> IsXenLeaf(c, leaf, offset))
  {
    assert w.leaf < HV < leaf ==> !LeafExists(c, HV);
    assert w.leaf < HV2 < leaf ==> !LeafExists(c, HV2);
    assert w.leaf < EXTD < leaf ==> !LeafExists(c, EXTD);
  }

  // ----- the next pair is the successor -----

  /** The next leaf is the next one that exists. */
  lemma NextLeafIs(c: Fn, w: Walk)
    requires Recorded(c, w, true) && MaxExtd(c) < 0xffff_ffff && LeafExists(c, w.leaf)
    ensures match NextLeaf(w)
            case None => forall l: u32 :: l > w.leaf ==> !LeafExists(c, l)
            case Some(leaf) =>
              && w.leaf < leaf && LeafExists(c, leaf)
              && (forall l: u32 :: w.leaf < l < leaf ==> !LeafExists(c, l))
  {
  }

  /** Nothing that should be visited lies strictly between two pairs. */
  ghost predicate Adjacent(c: Fn, l: u32, s: u32, l': u32, s': u32) {
    && Before(l, s, l', s')
    && (forall a: u32, b: u32 :: Expected(c, a, b) && Before(l, s, a, b) ==> !Before(a, b, l', s'))
  }

  /** While the walk stays in a leaf, it goes to the next subleaf; when it leaves,
      there is none left. */
  lemma WithinLeaf(c: Fn, w: Walk)
    requires WalkInv(c, w) && Finite(c)
    ensures var (r, stay) := Record(w, c(w.leaf, w.subleaf));
            if stay then
              WalkInv(c, r) && Adjacent(c, w.leaf, w.subleaf, w.leaf, r.subleaf)
            else if XenLeaf(r, 3) && r.subleaf < 2 then
              WalkInv(c, r.(subleaf := Inc(r.subleaf))) && Adjacent(c, w.leaf, w.subleaf, w.leaf, Inc(r.subleaf))
            else forall s: u32 :: s > w.subleaf ==> !SubleafExists(c, w.leaf, s)
  {
    if w.leaf == 4 {
      CacheLeaf(c, w);
    } else if w.leaf == 7 {
      assert w.subleaf < 0xffff_ffff;
    } else if w.leaf == 0xd {
      XstateLeaf(c, w);
    } else {
      RecordRecords(c, w);
      XenLeafIs(c, Record(w, c(w.leaf, w.subleaf)).0, 3);
    }
  }

  lemma CacheLeaf(c: Fn, w: Walk)
    requires WalkInv(c, w) && Finite(c) && w.leaf == 4
    ensures c(4, w.subleaf).eax % 32 != 0 ==> w.subleaf < 0xffff_ffff && SubleafExists(c, 4, Inc(w.subleaf))
    ensures c(4, w.subleaf).eax % 32 == 0 ==> forall s: u32 :: s > w.subleaf ==> !SubleafExists(c, 4, s)
  {
    var k: u32 :| c(4, k).eax % 32 == 0;
    assert k >= w.subleaf;
  }

  lemma XstateLeaf(c: Fn, w: Walk)
    requires WalkInv(c, w) && w.leaf == 0xd
    ensures var r := Record(w, c(w.leaf, w.subleaf)).0;
            && r.xstate == XstateBits(c) && w.subleaf < r.subleaf <= 63
            && (r.subleaf < 63 ==> Bit(XstateBits(c), r.subleaf))
            && (forall k: u32 :: w.subleaf < k < r.subleaf ==> !SubleafExists(c, 0xd, k))
  {
  }

  lemma FirstSubleaf(c: Fn, leaf: u32, s: u32)
    ensures var first :=
              if leaf == 4 || leaf == 7 || leaf == 0xd || IsXenLeaf(c, leaf, 3) || IsXenLeaf(c, leaf, 4) then 0
              else NO_SUBLEAF;
            SubleafExists(c, leaf, first) && (SubleafExists(c, leaf, s) ==> first <= s)
  {
  }

  /** Each pass goes from a pair that should be visited to the next one, and the
      walk ends when there is none. */
  lemma StepIsSuccessor(c: Fn, w: Walk)
    requires WalkInv(c, w) && Finite(c)
    ensures match Next(c, w)
            case Some(n) => WalkInv(c, n) && Adjacent(c, w.leaf, w.subleaf, n.leaf, n.subleaf)
            case None => forall a: u32, b: u32 :: Expected(c, a, b) ==> !Before(w.leaf, w.subleaf, a, b)
  {
    hide LeafExists, SubleafExists, NextLeaf;
    WithinLeaf(c, w);
    RecordRecords(c, w);
    var (r, stay) := Record(w, c(w.leaf, w.subleaf));
    if !stay && !(XenLeaf(r, 3) && r.subleaf < 2) {
      NextLeafIs(c, r);
      if NextLeaf(r).Some? {
        LeaveLeaf(c, w, r, NextLeaf(r).value);
      }
    }
  }

  lemma LeaveLeaf(c: Fn, w: Walk, r: Walk, leaf: u32)
    requires Recorded(c, r, true) && r.leaf == w.leaf < leaf && LeafExists(c, leaf)
    requires forall l: u32 :: w.leaf < l < leaf ==> !LeafExists(c, l)
    requires forall s: u32 :: s > w.subleaf ==> !SubleafExists(c, w.leaf, s)
    ensures var n := r.(leaf := leaf);
            var first :=
              if leaf == 4 || leaf == 7 || leaf == 0xd || XenLeaf(n, 3) || XenLeaf(n, 4) then 0 else NO_SUBLEAF;
            WalkInv(c, n.(subleaf := first)) && Adjacent(c, w.leaf, w.subleaf, leaf, first)
  {
    hide LeafExists, SubleafExists;
    RecordedNext(c, r, leaf);
    FirstSubleaf(c, leaf, 0);
    forall b: u32 | SubleafExists(c, leaf, b)
      ensures (if leaf == 4 || leaf == 7 || leaf == 0xd || IsXenLeaf(c, leaf, 3) || IsXenLeaf(c, leaf, 4) then 0
               else NO_SUBLEAF) <= b
    {
      FirstSubleaf(c, leaf, b);
    }
  }

  lemma StartInv(c: Fn)
    ensures WalkInv(c, START)
    ensures forall a: u32, b: u32 :: Expected(c, a, b) ==> !Before(a, b, 0, NO_SUBLEAF)
  {
  }

  // ----- the loop -----

  /** Lines 34-95, as the code performs them. */
  method RecordLeaf(w: Walk, out: Regs) returns (r: Walk, again: bool)
    ensures (r, again) == Record(w, out)
  {
    var leaf, subleaf, xstate := w.leaf, w.subleaf, w.xstate;
    var maxLeaf, maxL7, maxHv, maxHv2, maxExtd := w.maxLeaf, w.maxL7, w.maxHv, w.maxHv2, w.maxExtd;
    var xenFirst, xenLast := w.xenFirst, w.xenLast;
    again := false;
    if leaf == 0 {
      maxLeaf := out.eax;
    } else if leaf == 4 {
      subleaf := Inc(subleaf);
      again := out.eax % 32 != 0;
    } else if leaf == 7 {
      if subleaf == 0 {
        maxL7 := out.eax;
      }
      subleaf := Inc(subleaf);
      again := subleaf <= maxL7;
    } else if leaf == 0xd {
      if subleaf == 0 {
        xstate := out.edx * 0x1_0000_0000 + out.eax;
      }
      subleaf := ScanXstate(xstate, subleaf);
      again := subleaf < 63;
    } else if leaf == HV {
      maxHv := out.eax;
      if XenSignature(out) {
        xenFirst, xenLast := leaf, out.eax;
      }
    } else if leaf == HV2 {
      maxHv2 := out.eax;
      if XenSignature(out) {
        xenFirst, xenLast := leaf, out.eax;
      }
    } else if leaf == EXTD {
      maxExtd := out.eax;
    }
    r := Walk(leaf, subleaf, xstate, maxLeaf, maxL7, maxHv, maxHv2, maxExtd, xenFirst, xenLast);
  }

  /** Lines 116-127. */
  method AdvanceLeaf(w: Walk) returns (r: Option<u32>)
    ensures r == NextLeaf(w)
  {
    var leaf := Inc(w.leaf);
    if leaf > 0 && leaf < HV && leaf > w.maxLeaf {
      leaf := HV;
    }
    if leaf > HV && leaf < HV2 && leaf > w.maxHv {
      leaf := HV2;
    }
    if leaf > HV2 && leaf < EXTD && leaf > w.maxHv2 {
      leaf := EXTD;
    }
    if leaf > EXTD && leaf > w.maxExtd {
      return None;
    }
    r := Some(leaf);
  }

  /** One pass of the loop. */
  method Pass(c: Fn, w: Walk) returns (r: Option<Walk>)
    ensures r == Next(c, w)
  {
    hide Record, NextLeaf;
    var n, again := RecordLeaf(w, c(w.leaf, w.subleaf));
    if again {
      return Some(n);
    }
    if n.xenFirst <= n.leaf <= n.xenLast && n.leaf - n.xenFirst == 3 && n.subleaf < 2 {
      return Some(n.(subleaf := Inc(n.subleaf)));
    }
    var leaf := AdvanceLeaf(n);
    if leaf.None? {
      return None;
    }
    n := n.(leaf := leaf.value, subleaf := NO_SUBLEAF);
    if n.leaf == 4 || n.leaf == 7 || n.leaf == 0xd
       || (n.xenFirst <= n.leaf <= n.xenLast && (n.leaf - n.xenFirst == 3 || n.leaf - n.xenFirst == 4)) {
      n := n.(subleaf := 0);
    }
    r := Some(n);
  }

  /** Lines 57-61. */
  method ScanXstate(bits: nat, subleaf: u32) returns (s: u32)
    ensures s == ScanFrom(bits, Inc(subleaf))
  {
    s := Inc(subleaf);
    while s < 63 && !Bit(bits, s)
      invariant ScanFrom(bits, s) == ScanFrom(bits, Inc(subleaf))
      decreases 63 - s
    {
      s := Inc(s);
    }
  }

  ghost predicate Increasing(visited: seq<(u32, u32)>) {
    forall i, j :: 0 <= i < j < |visited| ==> Before(visited[i].0, visited[i].1, visited[j].0, visited[j].1)
  }

  lemma IncreasingAppend(visited: seq<(u32, u32)>, a: u32, b: u32)
    requires Increasing(visited)
    requires forall l: u32, s: u32 :: (l, s) in visited ==> Before(l, s, a, b)
    ensures Increasing(visited + [(a, b)])
  {
    forall i | 0 <= i < |visited| ensures Before(visited[i].0, visited[i].1, a, b) {
      assert visited[i] == (visited[i].0, visited[i].1);
    }
  }

  /** The walk visits exactly the pairs that should be visited, in strictly
      increasing order, and ends. */
  method DumpLeaves(c: Fn) returns (visited: seq<(u32, u32)>)
    requires Finite(c)
    ensures Increasing(visited)
    ensures forall l: u32, s: u32 :: (l, s) in visited <==> Expected(c, l, s)
  {
    hide LeafExists, SubleafExists, Next;
    var w := START;
    visited := [];
    StartInv(c);
    while true
      invariant WalkInv(c, w) && Increasing(visited)
      invariant forall l: u32, s: u32 :: (l, s) in visited <==> Expected(c, l, s) && Before(l, s, w.leaf, w.subleaf)
      decreases 0xffff_ffff - w.leaf, 0xffff_ffff - w.subleaf
    {
      StepIsSuccessor(c, w);
      IncreasingAppend(visited, w.leaf, w.subleaf);
      visited := visited + [(w.leaf, w.subleaf)];
      var next := Pass(c, w);
      if next.None? {
        return;
      }
      w := next.value;
    }
  }

  // ----- and when it does not end -----

  /** Whether the walk reaches the break within `fuel` passes. */
  predicate EndsWithin(c: Fn, w: Walk, fuel: nat)
    decreases fuel
  {
    fuel > 0 &&
    match Next(c, w)
    case None => true
    case Some(n) => EndsWithin(c, n, fuel - 1)
  }

  /** The walk cannot get past a leaf that it never leaves. */
  ghost predicate StuckBelow(c: Fn, w: Walk) {
    && w.xenFirst == 0xffff_ffff && w.xenLast == 0
    && (if w.leaf > 0 then w.maxLeaf == MaxLeaf(c) else w.subleaf == NO_SUBLEAF)
    && if MaxLeaf(c) >= 4 && forall k: u32 :: c(4, k).eax % 32 != 0 then w.leaf <= 4
       else MaxLeaf(c) >= 7 && c(7, 0).eax == 0xffff_ffff && w.leaf <= 7
            && (w.leaf == 7 && w.subleaf > 0 ==> w.maxL7 == 0xffff_ffff)
  }

  /** The walk wraps round from leaf 2^32 - 1 to leaf 0. */
  ghost predicate GoesRound(c: Fn, w: Walk) {
    && MaxExtd(c) == 0xffff_ffff && w.xenFirst in {HV, HV2, 0xffff_ffff}
    && (w.leaf == EXTD ==> w.subleaf == NO_SUBLEAF)
    && (w.leaf > EXTD ==> w.maxExtd == 0xffff_ffff)
  }

  lemma {:induction false} StuckNeverEnds(c: Fn, w: Walk, fuel: nat)
    requires StuckBelow(c, w)
    ensures !EndsWithin(c, w, fuel)
    decreases fuel
  {
    if fuel > 0 {
      StuckStays(c, w);
      StuckNeverEnds(c, Next(c, w).value, fuel - 1);
    }
  }

  lemma StuckStays(c: Fn, w: Walk)
    requires StuckBelow(c, w)
    ensures Next(c, w).Some? && StuckBelow(c, Next(c, w).value)
  {
  }

  lemma {:induction false} RoundNeverEnds(c: Fn, w: Walk, fuel: nat)
    requires GoesRound(c, w)
    ensures !EndsWithin(c, w, fuel)
    decreases fuel
  {
    if fuel > 0 {
      RoundStays(c, w);
      RoundNeverEnds(c, Next(c, w).value, fuel - 1);
    }
  }

  lemma RoundStays(c: Fn, w: Walk)
    requires GoesRound(c, w)
    ensures Next(c, w).Some? && GoesRound(c, Next(c, w).value)
  {
  }

  lemma {:induction false} FiniteEnds(c: Fn, w: Walk) returns (fuel: nat)
    requires WalkInv(c, w) && Finite(c)
    ensures EndsWithin(c, w, fuel)
    decreases 0xffff_ffff - w.leaf, 0xffff_ffff - w.subleaf
  {
    hide Record, NextLeaf, LeafExists, SubleafExists, Next;
    StepIsSuccessor(c, w);
    if Next(c, w).None? {
      fuel := 1;
    } else {
      fuel := FiniteEnds(c, Next(c, w).value);
      fuel := fuel + 1;
    }
  }

  /** The walk ends if and only if leaf 4, when it is visited, has a subleaf of type
      0, and the maxima of leaf 7, when it is visited, and of the extended leaves
      are not 2^32 - 1. */
  lemma WalkEndsIff(c: Fn)
    ensures (exists fuel :: EndsWithin(c, START, fuel)) <==> Finite(c)
  {
    if Finite(c) {
      StartInv(c);
      var fuel := FiniteEnds(c, START);
    } else {
      forall fuel: nat ensures !EndsWithin(c, START, fuel) {
        if MaxExtd(c) == 0xffff_ffff {
          RoundNeverEnds(c, START, fuel);
        } else {
          StuckNeverEnds(c, START, fuel);
        }
      }
    }
  }
}
