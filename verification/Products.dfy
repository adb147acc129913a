// What b_CLPFD_MULTIPLY_INT_ccc leaves of the domains of X, Y and Z, in terms of sets.
module Products {
  import opened Sets
  import opened LinearTerms
  import opened Region
  import opened Domains
  import opened Quotients

  const BP_MAXINT_1W: int := 72057594037927935
  const BP_MININT_1W: int := -BP_MAXINT_1W
  const BP_MAXINT_1W_SQRT: int := 268435455

  // The values left of X, Y and Z.
  datatype Doms = Doms(x: set<int>, y: set<int>, z: set<int>)

  // Nothing is left of one of them, a factor was bound and the propagation ends, or it goes on.
  datatype State = Empty | Final(d: Doms) | Open(d: Doms)

  ghost function Cut(d: Doms, first: bool, r: set<int>): State {
    if first then CutX(d, r) else CutY(d, r)
  }

  // A factor is cut to r.
  ghost function CutX(d: Doms, r: set<int>): State {
    if r == {} then Empty else if |r| == 1 then Final(d.(x := r)) else Open(d.(x := r))
  }

  ghost function CutY(d: Doms, r: set<int>): State {
    if r == {} then Empty else if |r| == 1 then Final(d.(y := r)) else Open(d.(y := r))
  }

  ghost predicate AtLeast(s: set<int>, b: int) {
    forall v :: v in s ==> v >= b
  }

  ghost predicate AtMost(s: set<int>, b: int) {
    forall v :: v in s ==> v <= b
  }

  ghost predicate LiesIn(s: set<int>, lo: int, hi: int) {
    forall v :: v in s ==> lo <= v <= hi
  }

  ghost function FromOn(s: set<int>, b: int): set<int> {
    set v | v in s && v >= b
  }

  // ---- Signs ----

  // A positive product and a nonnegative X: Y is positive.
  ghost function SignY(d: Doms): State {
    if AtLeast(d.z, 1) && AtLeast(d.x, 0) then CutY(d, FromOn(d.y, 1)) else Open(d)
  }

  ghost function SignX(d: Doms): State {
    if AtLeast(d.z, 1) && AtLeast(d.y, 0) then CutX(d, FromOn(d.x, 1)) else Open(d)
  }

  // 0 is taken out of a factor: Z may be negative but is not 0, and the factor is small.
  ghost predicate RemovesZero(d: Doms, dom: set<int>, lo: int, hi: int) {
    !AtLeast(d.z, 1) && 0 !in d.z && LiesIn(dom, lo, hi)
  }

  // Taking 0 out makes a bit vector of an interval when 0 is inside.
  ghost predicate MakesBits(d: Doms, dom: set<int>, lo: int, hi: int) {
    RemovesZero(d, dom, lo, hi) && Inner(dom, 0)
  }

  ghost function ZeroX(d: Doms, lo: int, hi: int): State {
    if RemovesZero(d, d.x, lo, hi) then CutX(d, d.x - {0}) else Open(d)
  }

  ghost function ZeroY(d: Doms, lo: int, hi: int): State {
    if RemovesZero(d, d.y, lo, hi) then CutY(d, d.y - {0}) else Open(d)
  }

  ghost function Positives(d: Doms): State {
    var st := SignY(d);
    if st.Open? then SignX(st.d) else st
  }

  ghost function Zeros(d: Doms, lo: int, hi: int): State {
    var st := ZeroX(d, lo, hi);
    if st.Open? then ZeroY(st.d, lo, hi) else st
  }

  ghost function Signs(d: Doms, lo: int, hi: int): State {
    var st := Positives(d);
    if st.Open? then Zeros(st.d, lo, hi) else st
  }

  // ---- Bounds ----

  // Some product of members is no greater than v, and some is no less.
  ghost predicate InHull(dx: set<int>, dy: set<int>, v: int) {
    && (exists a, b :: a in dx && b in dy && a * b <= v)
    && (exists a, b :: a in dx && b in dy && v <= a * b)
  }

  ghost predicate SmallFactors(d: Doms) {
    && LiesIn(d.x, -BP_MAXINT_1W_SQRT, BP_MAXINT_1W_SQRT) && LiesIn(d.y, -BP_MAXINT_1W_SQRT, BP_MAXINT_1W_SQRT)
  }

  // Z between the products.
  ghost function HullZ(d: Doms): State {
    if !SmallFactors(d) then Open(d)
    else
      var r := set v | v in d.z && InHull(d.x, d.y, v);
      if r == {} then Empty else Open(d.(z := r))
  }

  // Z reaches to the greatest or least integer: nothing is said of the factors.
  ghost function LimitZ(d: Doms): State {
    if (BP_MININT_1W in d.z && AtLeast(d.z, BP_MININT_1W)) || (BP_MAXINT_1W in d.z && AtMost(d.z, BP_MAXINT_1W))
    then Final(d) else Open(d)
  }

  // Nonnegative factors of a positive product: neither exceeds it.
  ghost predicate Sized(d: Doms) {
    AtLeast(d.x, 0) && AtLeast(d.y, 0) && AtLeast(d.z, 1)
  }

  ghost function UpToSome(s: set<int>, t: set<int>): set<int> {
    set v | v in s && exists c :: c in t && v <= c
  }

  ghost function SizeX(d: Doms): State {
    if Sized(d) then CutX(d, UpToSome(d.x, d.z)) else Open(d)
  }

  ghost function SizeY(d: Doms): State {
    if Sized(d) then CutY(d, UpToSome(d.y, d.z)) else Open(d)
  }

  ghost function Sizes(d: Doms): State {
    var st := SizeX(d);
    if st.Open? then SizeY(st.d) else st
  }

  // Some quotient of members, rounded down, is no greater than v, and some, rounded up, is no less.
  ghost predicate InQuotients(dz: set<int>, dx: set<int>, v: int) {
    && (exists c, a :: c in dz && a in dx && a != 0 && Floor(c, a) <= v)
    && (exists c, a :: c in dz && a in dx && a != 0 && v <= -Floor(-c, a))
  }

  ghost function QuotientsOf(s: set<int>, dz: set<int>, dx: set<int>): set<int> {
    set v | v in s && InQuotients(dz, dx, v)
  }

  // One sign, and no bound at the limit.
  ghost predicate OneSign(s: set<int>) {
    LiesIn(s, 1, BP_MAXINT_1W - 1) || LiesIn(s, BP_MININT_1W + 1, -1)
  }

  ghost function QuotientY(d: Doms): State {
    if OneSign(d.x) then CutY(d, QuotientsOf(d.y, d.z, d.x)) else Open(d)
  }

  ghost function QuotientX(d: Doms): State {
    if OneSign(d.y) then CutX(d, QuotientsOf(d.x, d.z, d.y)) else Open(d)
  }

  // All bounds but the last cut, and with it.
  ghost function Bounded(d: Doms): State {
    var st := HullZ(d);
    var st1 := if st.Open? then LimitZ(st.d) else st;
    var st2 := if st1.Open? then Sizes(st1.d) else st1;
    if st2.Open? then QuotientY(st2.d) else st2
  }

  // ---- Values ----

  ghost predicate HasPartner(dx: set<int>, dz: set<int>, b: int) {
    exists a :: a in dx && a * b in dz
  }

  ghost predicate Factors(dx: set<int>, dy: set<int>, a: int, b: int, e: int) {
    a in dx && b in dy && a * b == e
  }

  ghost predicate IsProduct(dx: set<int>, dy: set<int>, c: int) {
    exists a, b :: Factors(dx, dy, a, b, c)
  }

  ghost function Partnered(dy: set<int>, dx: set<int>, dz: set<int>): set<int> {
    set b | b in dy && HasPartner(dx, dz, b)
  }

  ghost function OnlyProducts(d: Doms): set<int> {
    set c | c in d.z && IsProduct(d.x, d.y, c)
  }

  // A pass that takes out what is not in keep, and ends when one value is left: the greatest, if none is to be kept.
  ghost function Kept(d: set<int>, keep: set<int>): set<int> {
    if keep != {} then keep else set v | v in d && forall w :: w in d ==> w <= v
  }

  ghost predicate Spans(s: set<int>, n: int) {
    forall v, w :: v in s && w in s ==> w - v <= n
  }

  const WIDTH: int := 65536

  // Which of the domains are bit vectors.
  datatype Kinds = Kinds(x: bool, y: bool, z: bool)

  ghost function KindsAfterSigns(d: Doms, k: Kinds, lo: int, hi: int): Kinds {
    Kinds(k.x || MakesBits(d, d.x, lo, hi), k.y || MakesBits(d, d.y, lo, hi), k.z)
  }

  // Taking out what is not in keep makes a hole between values.
  ghost predicate Punches(d: set<int>, keep: set<int>) {
    exists u, v, w :: u in keep && v in d && v !in keep && w in d && u < v < w
  }

  // The values of a factor dom are checked only when it is small and the other one is not wide. A bit vector must be
  // involved, or Z be fixed.
  ghost predicate Checks(dom: set<int>, wide: set<int>, dz: set<int>, bits: bool, lo: int, hi: int) {
    LiesIn(dom, lo, hi) && Spans(wide, WIDTH) && (bits || |dz| == 1)
  }

  // Values of Y and X without a partner go. wide is what the other factor was when its width was last looked at.
  ghost function PartnersY(d: Doms, wide: set<int>, bits: bool, lo: int, hi: int): State {
    if Checks(d.y, wide, d.z, bits, lo, hi) then CutY(d, Kept(d.y, Partnered(d.y, d.x, d.z))) else Open(d)
  }

  ghost function PartnersX(d: Doms, wide: set<int>, bits: bool, lo: int, hi: int): State {
    if Checks(d.x, wide, d.z, bits, lo, hi) then CutX(d, Kept(d.x, Partnered(d.x, d.y, d.z))) else Open(d)
  }

  // Values of Z that are no products go.
  ghost function ProductsZ(d: Doms, bits: bool, lo: int, hi: int): State {
    if LiesIn(d.z, lo, hi) && bits && |d.z| != 1 then Open(d.(z := Kept(d.z, OnlyProducts(d)))) else Open(d)
  }

  // The kind of Y after its values were checked against those of X, and the other way round.
  ghost predicate BitsY(d: Doms, wide: set<int>, k: Kinds, lo: int, hi: int) {
    k.y || (Checks(d.y, wide, d.z, k.x || k.z, lo, hi) && Punches(d.y, Partnered(d.y, d.x, d.z)))
  }

  ghost predicate BitsX(d: Doms, wide: set<int>, k: Kinds, lo: int, hi: int) {
    k.x || (Checks(d.x, wide, d.z, k.y || k.z, lo, hi) && Punches(d.x, Partnered(d.x, d.y, d.z)))
  }

  ghost function KindsAfterY(d: Doms, wide: set<int>, k: Kinds, lo: int, hi: int): Kinds {
    k.(y := BitsY(d, wide, k, lo, hi))
  }

  // First Y, then X.
  ghost function Partners(d: Doms, wide: set<int>, k: Kinds, lo: int, hi: int): State {
    var st := PartnersY(d, wide, k.x || k.z, lo, hi);
    if st.Open? then PartnersX(st.d, d.y, KindsAfterY(d, wide, k, lo, hi).y || k.z, lo, hi) else st
  }

  ghost function KindsAfterX(d: Doms, wide: set<int>, k: Kinds, lo: int, hi: int): Kinds {
    var st := PartnersY(d, wide, k.x || k.z, lo, hi);
    var ky := KindsAfterY(d, wide, k, lo, hi);
    if st.Open? then ky.(x := BitsX(st.d, d.y, ky, lo, hi)) else ky
  }

  ghost function Eliminated(d: Doms, wide: set<int>, k: Kinds, lo: int, hi: int): State {
    var st := Partners(d, wide, k, lo, hi);
    var k' := KindsAfterX(d, wide, k, lo, hi);
    if st.Open? then ProductsZ(st.d, k'.x || k'.y, lo, hi) else st
  }

  // Everything, for two unbound factors.
  ghost function Multiplied(d: Doms, k: Kinds, lo: int, hi: int): State {
    var st := Signs(d, lo, hi);
    var st1 := if st.Open? then Bounded(st.d) else st;
    var st2 := if st1.Open? then QuotientX(st1.d) else st1;
    if st2.Open? then Eliminated(st2.d, st1.d.x, KindsAfterSigns(d, k, lo, hi), lo, hi) else st2
  }

  // One factor is a: the values of a small Z that are no multiples go.
  ghost function Multiples(dy: set<int>, dz: set<int>, a: int): set<int> {
    set c | c in dz && IsMultiple(dy, a, c)
  }

  ghost predicate IsMultiple(dy: set<int>, a: int, c: int) {
    exists b :: b in dy && a * b == c
  }

  ghost predicate ChecksMultiples(dy: set<int>, dz: set<int>, a: int) {
    a != 0 && a != 1 && a != -1 && |dy| != 1 && |dz| != 1 && |dz| <= 100
  }

  // ---- The corners ----

  // The products of the bounds are the extreme products.
  lemma HullCorners(dx: set<int>, dy: set<int>, minX: int, maxX: int, minY: int, maxY: int, v: int)
    requires Bounds(dx, minX, maxX) && Bounds(dy, minY, maxY)
    ensures InHull(dx, dy, v) <==>
      Min4(minX * minY, minX * maxY, maxX * minY, maxX * maxY) <= v <=
        Max4(minX * minY, minX * maxY, maxX * minY, maxX * maxY)
  {
    forall a, b | a in dx && b in dy
      ensures Min4(minX * minY, minX * maxY, maxX * minY, maxX * maxY) <= a * b
      ensures a * b <= Max4(minX * minY, minX * maxY, maxX * minY, maxX * maxY) {
      CornerProducts(a, b, minX, maxX, minY, maxY);
    }
  }

  // Rounded quotients fall and rise with the divisor, depending on the sign.
  lemma FloorMember(c: int, a: int, lo: int, hi: int, z: int)
    requires 0 < lo <= a <= hi && z <= c
    ensures Floor(z, hi) <= Floor(c, a) || Floor(z, lo) <= Floor(c, a)
  {
    var g := if z >= 0 then Floor(z, hi) else Floor(z, lo);
    FloorBelow(z, hi);
    FloorBelow(z, lo);
    if z >= 0 {
      MonoLeft(a, hi, g);
    } else {
      MonoLeft(lo, a, -g);
      MinusProduct(g, lo);
      MinusProduct(g, a);
    }
    FloorGreatest(c, a, g);
  }

  lemma FloorGreatest(c: int, a: int, g: int)
    requires a > 0 && a * g <= c
    ensures g <= Floor(c, a)
  {
    var f := Floor(c, a);
    if f < g {
      Scaled(a, f + 1, g);
    }
  }

  lemma QuotientMember(c: int, a: int, minX: int, maxX: int, minZ: int, maxZ: int)
    requires minX <= a <= maxX && minZ <= c <= maxZ && (minX > 0 || maxX < 0)
    ensures Min4(Floor(minZ, minX), Floor(minZ, maxX), Floor(maxZ, minX), Floor(maxZ, maxX)) <= Floor(c, a)
  {
    if minX > 0 {
      FloorMember(c, a, minX, maxX, minZ);
    } else {
      FloorMember(-c, -a, -maxX, -minX, -maxZ);
    }
  }

  // The rounded quotients of the bounds are the extreme ones.
  lemma QuotientCorners(dz: set<int>, dx: set<int>, minX: int, maxX: int, minZ: int, maxZ: int, v: int)
    requires Bounds(dx, minX, maxX) && Bounds(dz, minZ, maxZ) && (minX > 0 || maxX < 0)
    ensures InQuotients(dz, dx, v) <==>
      Min4(Floor(minZ, minX), Floor(minZ, maxX), Floor(maxZ, minX), Floor(maxZ, maxX)) <= v <=
        Max4(-Floor(-minZ, minX), -Floor(-minZ, maxX), -Floor(-maxZ, minX), -Floor(-maxZ, maxX))
  {
    forall c, a | c in dz && a in dx
      ensures Min4(Floor(minZ, minX), Floor(minZ, maxX), Floor(maxZ, minX), Floor(maxZ, maxX)) <= Floor(c, a)
      ensures -Floor(-c, a) <=
        Max4(-Floor(-minZ, minX), -Floor(-minZ, maxX), -Floor(-maxZ, minX), -Floor(-maxZ, maxX)) {
      QuotientMember(c, a, minX, maxX, minZ, maxZ);
      QuotientMember(-c, a, minX, maxX, -maxZ, -minZ);
    }
  }

  // ---- Passes ----

  // The pass stands at e: what comes before is dealt with.
  ghost predicate PassedTo(d: set<int>, keep: set<int>, dom: set<int>, e: int) {
    dom == set v | v in d && (v < e ==> v in keep)
  }

  lemma PassedStart(d: set<int>, keep: set<int>, e: int)
    requires forall v :: v in d ==> e <= v
    ensures PassedTo(d, keep, d, e)
  {
  }

  lemma PassedStep(d: set<int>, keep: set<int>, dom: set<int>, dom': set<int>, e: int, next: int)
    requires PassedTo(d, keep, dom, e) && e < next && forall v :: v in dom && e < v ==> next <= v
    requires if e in keep then dom' == dom else dom' == dom - {e}
    ensures PassedTo(d, keep, dom', next)
  {
  }

  ghost predicate PunchesBelow(d: set<int>, keep: set<int>, e: int) {
    exists u, v, w :: u in keep && v in d && v !in keep && w in d && u < v < w && v < e
  }

  lemma PunchedStep(d: set<int>, keep: set<int>, dom: set<int>, e: int, next: int, kept: bool)
    requires PassedTo(d, keep, dom, e) && e < next && keep <= d && (e in d ==> (kept <==> e in keep))
    requires forall v :: v in dom && e < v ==> next <= v
    requires e !in d ==> kept || !Inner(dom, e)
    ensures PunchesBelow(d, keep, next) <==> PunchesBelow(d, keep, e) || (!kept && Inner(dom, e))
  {
    if PunchesBelow(d, keep, next) && !PunchesBelow(d, keep, e) {
      var u, v, w :| u in keep && v in d && v !in keep && w in d && u < v < w && v < next;
      assert v >= e ==> v in dom;
      assert v == e && u in dom && w in dom;
    }
    if !kept && Inner(dom, e) {
      var u, w :| u in dom && w in dom && u < e < w;
      assert u in keep && w in d;
    }
  }

  lemma PunchedEnd(d: set<int>, keep: set<int>, dom: set<int>, e: int)
    requires PassedTo(d, keep, dom, e) && keep <= d && ((forall v :: v in d ==> v < e) || |dom| == 1)
    ensures PunchesBelow(d, keep, e) <==> Punches(d, keep)
  {
    if u, v, w :| u in keep && v in d && v !in keep && w in d && u < v < w && e <= v {
      assert u in dom && v in dom;
      SizeTwo(dom, u, v);
    }
  }

  // The end: nothing is left to look at, or one value is left.
  lemma PassedEnd(d: set<int>, keep: set<int>, dom: set<int>, e: int)
    requires PassedTo(d, keep, dom, e) && keep <= d && dom != {} && ((forall v :: v in d ==> v < e) || |dom| == 1)
    ensures dom == Kept(d, keep)
  {
    if |dom| == 1 {
      var u := SomeMember(dom);
      SingleMember(dom, u);
      if keep == {} {
        forall w | w in d ensures w <= u {
          assert w >= e ==> w in dom;
        }
      } else {
        var k := SomeMember(keep);
        assert k in dom && keep <= dom;
      }
    }
  }

  // ---- What that means ----

  // A product out of reach of the factors is noticed, unless a factor is bound by its sign.
  lemma OutOfReach(d: Doms, k: Kinds, lo: int, hi: int)
    requires Signs(d, lo, hi).Open? && SmallFactors(Signs(d, lo, hi).d)
    requires forall v :: v in d.z ==> !InHull(Signs(d, lo, hi).d.x, Signs(d, lo, hi).d.y, v)
    ensures Multiplied(d, k, lo, hi) == Empty
  {
    var e := Signs(d, lo, hi).d;
    assert (set v | v in e.z && InHull(e.x, e.y, v)) == {};
  }

  ghost predicate Shrinks(d: Doms, st: State) {
    !st.Empty? ==> st.d.x <= d.x && st.d.y <= d.y && st.d.z <= d.z
  }

  lemma KeptIn(d: set<int>, keep: set<int>)
    requires keep <= d
    ensures Kept(d, keep) <= d
  {
  }

  lemma EliminatedShrinks(d: Doms, wide: set<int>, k: Kinds, lo: int, hi: int)
    ensures Shrinks(d, Eliminated(d, wide, k, lo, hi))
  {
    var st := PartnersY(d, wide, k.x || k.z, lo, hi);
    KeptIn(d.y, Partnered(d.y, d.x, d.z));
    assert Shrinks(d, st);
    if st.Open? {
      KeptIn(st.d.x, Partnered(st.d.x, st.d.y, st.d.z));
      var st1 := Partners(d, wide, k, lo, hi);
      assert Shrinks(st.d, st1);
      if st1.Open? {
        KeptIn(st1.d.z, OnlyProducts(st1.d));
      }
    }
  }

  lemma BoundedShrinks(d: Doms)
    ensures Shrinks(d, Bounded(d))
    ensures Bounded(d).Open? && SmallFactors(d) ==> forall v :: v in Bounded(d).d.z ==> InHull(d.x, d.y, v)
  {
  }

  // With both factors unbound in the end, the product lies between the products of the signed factors, every value of X
  // is a possible quotient when Y has one sign, and positive products have positive factors.
  lemma UnboundLeft(d: Doms, k: Kinds, lo: int, hi: int)
    requires var st := Multiplied(d, k, lo, hi); st.Open? && |st.d.x| != 1 && |st.d.y| != 1
    ensures var st, sg := Multiplied(d, k, lo, hi).d, Signs(d, lo, hi);
      && sg.Open? && Bounded(sg.d).Open?
      && (SmallFactors(sg.d) ==> forall v :: v in st.z ==> InHull(sg.d.x, sg.d.y, v))
      && (OneSign(Bounded(sg.d).d.y) ==>
        forall v :: v in st.x ==> InQuotients(Bounded(sg.d).d.z, Bounded(sg.d).d.y, v))
  {
    var sg := Signs(d, lo, hi);
    BoundedShrinks(sg.d);
    var e := Bounded(sg.d).d;
    EliminatedShrinks(QuotientX(e).d, e.x, KindsAfterSigns(d, k, lo, hi), lo, hi);
  }

  // X and Y in 2..3 and Z = 100.
  lemma OutOfReachExample(k: Kinds)
    ensures Multiplied(Doms({2, 3}, {2, 3}, {100}), k, -3200, 3200) == Empty
  {
    var d := Doms({2, 3}, {2, 3}, {100});
    assert FromOn(d.y, 1) == d.y && FromOn(d.x, 1) == d.x && |d.x| == 2;
    assert Signs(d, -3200, 3200) == Open(d);
    forall a, b | a in d.x && b in d.y ensures a * b < 100 {
    }
    OutOfReach(d, k, -3200, 3200);
  }
}
