/** The coarse-graining pass of `main`: for every residue and every bead of
    the mapping, the mass-weighted centroid of the bead's atoms becomes one
    pseudo-atom of the output structure. */
module Aggregation {
  import opened Wrappers
  import opened Mapping

  datatype Vec3 = Vec3(x: real, y: real, z: real)

  datatype AtomState = AtomState(position: Vec3, velocity: Vec3)

  /** A residue of the input structure: its number, its name and its atoms by name. */
  datatype Residue = Residue(number: int, name: string, atoms: map<string, AtomState>)

  /** The input structure as the aggregation reads it. */
  datatype Structure = Structure(title: string, residues: seq<Residue>, boxSize: Vec3)

  /** A single-precision quotient: finite, or what IEEE 754 division by zero gives. */
  datatype Float = Finite(value: real) | PosInf | NegInf | NaN

  datatype FVec3 = FVec3(x: Float, y: Float, z: Float)

  /** An output pseudo-atom. */
  datatype Atom = Atom(resNumber: int, resName: string, atomName: string, atomNumber: int,
                       position: FVec3, velocity: FVec3)

  /** The output structure. */
  datatype CoarseStructure = CoarseStructure(title: string, atoms: seq<Atom>, boxSize: Vec3)

  /** `unwrap` on a failed atom lookup: the run panics and prints nothing. */
  datatype AggregateError = MissingAtom

  /** Which vector of an atom is being averaged. */
  datatype Component = Position | Velocity

  function Coord(s: AtomState, c: Component): Vec3
  {
    match c
    case Position => s.position
    case Velocity => s.velocity
  }

  function Zero(): Vec3 { Vec3(0.0, 0.0, 0.0) }

  function Add(u: Vec3, v: Vec3): Vec3 { Vec3(u.x + v.x, u.y + v.y, u.z + v.z) }

  function Scale(k: real, v: Vec3): Vec3 { Vec3(k * v.x, k * v.y, k * v.z) }

  function Finite3(v: Vec3): FVec3 { FVec3(Finite(v.x), Finite(v.y), Finite(v.z)) }

  /** `a / t` in IEEE 754 arithmetic.  A zero total mass is always +0.0 (the
      sum starts at +0.0), so a zero divisor gives +Inf, -Inf or NaN by the
      sign of the dividend. */
  function Quotient(a: real, t: real): Float
  {
    if t != 0.0 then Finite(a / t)
    else if a > 0.0 then PosInf
    else if a < 0.0 then NegInf
    else NaN
  }

  function DivideVec(v: Vec3, t: real): FVec3
  {
    FVec3(Quotient(v.x, t), Quotient(v.y, t), Quotient(v.z, t))
  }

  /** Every atom the bead lists is present in the residue. */
  predicate Covers(res: Residue, list: seq<Entry>)
  {
    forall i :: 0 <= i < |list| ==> list[i].0 in res.atoms
  }

  /** Σ mᵢ over the bead's list. */
  function TotalMass(list: seq<Entry>): real
  {
    if |list| == 0 then 0.0 else TotalMass(list[..|list| - 1]) + list[|list| - 1].1
  }

  /** Σ mᵢ·vᵢ over the bead's list, vᵢ the chosen vector of atom i. */
  function Moment(res: Residue, list: seq<Entry>, c: Component): Vec3
    requires Covers(res, list)
  {
    if |list| == 0 then Zero()
    else
      var last := list[|list| - 1];
      Add(Moment(res, list[..|list| - 1], c), Scale(last.1, Coord(res.atoms[last.0], c)))
  }

  /** The mass-weighted centroid Σ mᵢ·vᵢ / Σ mᵢ, as the division computes it. */
  function Centroid(res: Residue, list: seq<Entry>, c: Component): FVec3
    requires Covers(res, list)
  {
    DivideVec(Moment(res, list, c), TotalMass(list))
  }

  /** Reference definition: Σ mᵢ·(vᵢ − p), the weighted offsets from a point p. */
  function Offsets(res: Residue, list: seq<Entry>, c: Component, p: Vec3): Vec3
    requires Covers(res, list)
  {
    if |list| == 0 then Zero()
    else
      var last := list[|list| - 1];
      Add(Offsets(res, list[..|list| - 1], c, p),
          Scale(last.1, Add(Coord(res.atoms[last.0], c), Scale(-1.0, p))))
  }

  /** The inner loop over one bead: accumulates the total mass and the
      weighted position and velocity, fails on the first atom missing from the
      residue, and divides by the total. */
  method ReduceBead(residue: Residue, aalist: seq<Entry>) returns (r: Option<(FVec3, FVec3)>)
    ensures r.Some? <==> Covers(residue, aalist)
    ensures r.Some? ==> r.value == (Centroid(residue, aalist, Position), Centroid(residue, aalist, Velocity))
  {
    var total := 0.0;
    var position := Vec3(0.0, 0.0, 0.0);
    var velocity := Vec3(0.0, 0.0, 0.0);
    var i := 0;
    while i < |aalist|
      invariant 0 <= i <= |aalist|
      invariant Covers(residue, aalist[..i])
      invariant total == TotalMass(aalist[..i])
      invariant position == Moment(residue, aalist[..i], Position)
      invariant velocity == Moment(residue, aalist[..i], Velocity)
    {
      var (aa, mass) := aalist[i];
      total := total + mass;
      if aa !in residue.atoms {
        return None;
      }
      var coord := residue.atoms[aa];
      position := Vec3(position.x + mass * coord.position.x,
                       position.y + mass * coord.position.y,
                       position.z + mass * coord.position.z);
      velocity := Vec3(velocity.x + mass * coord.velocity.x,
                       velocity.y + mass * coord.velocity.y,
                       velocity.z + mass * coord.velocity.z);
      assert aalist[..i + 1][..i] == aalist[..i];
      i := i + 1;
    }
    assert aalist[..i] == aalist;
    r := Some((DivideVec(position, total), DivideVec(velocity, total)));
  }

  /** Every bead of the mapping can be computed for the residue. */
  predicate ResidueCovered(res: Residue, m: AACGMap)
  {
    forall cg :: cg in m ==> Covers(res, m[cg])
  }

  predicate AllCovered(residues: seq<Residue>, m: AACGMap)
  {
    forall j :: 0 <= j < |residues| ==> ResidueCovered(residues[j], m)
  }

  /** Every listed bead is a key of the mapping and can be computed for the residue. */
  predicate BeadsCovered(res: Residue, m: AACGMap, beads: seq<string>)
  {
    forall j :: 0 <= j < |beads| ==> beads[j] in m && Covers(res, m[beads[j]])
  }

  /** The pseudo-atom emitted for one residue and one bead. */
  function BeadAtom(res: Residue, cg: string, list: seq<Entry>, number: int): Atom
    requires Covers(res, list)
  {
    Atom(res.number, res.name, cg, number, Centroid(res, list, Position), Centroid(res, list, Velocity))
  }

  /** The pseudo-atoms of one residue, one per bead in iteration order,
      numbered from `first`. */
  function ResidueAtoms(res: Residue, m: AACGMap, beads: seq<string>, first: int): (r: seq<Atom>)
    requires BeadsCovered(res, m, beads)
    ensures |r| == |beads|
  {
    if |beads| == 0 then []
    else
      var n := |beads| - 1;
      ResidueAtoms(res, m, beads[..n], first) + [BeadAtom(res, beads[n], m[beads[n]], first + n)]
  }

  /** The emitted atoms: residues outer, beads inner, numbered by a running counter from 1. */
  function CoarseAtoms(residues: seq<Residue>, m: AACGMap, beads: seq<string>): (r: seq<Atom>)
    requires AllCovered(residues, m)
    requires forall b :: b in beads ==> b in m
    ensures |r| == |residues| * |beads|
  {
    if |residues| == 0 then []
    else
      var n := |residues| - 1;
      var done := CoarseAtoms(residues[..n], m, beads);
      done + ResidueAtoms(residues[n], m, beads, |done| + 1)
  }

  lemma BeadsCoveredSnoc(res: Residue, m: AACGMap, beads: seq<string>, b: nat)
    requires b < |beads| && BeadsCovered(res, m, beads[..b])
    requires beads[b] in m && Covers(res, m[beads[b]])
    ensures BeadsCovered(res, m, beads[..b + 1])
  {
    var pre := beads[..b + 1];
    forall j | 0 <= j < b + 1 ensures pre[j] in m && Covers(res, m[pre[j]]) {
      if j < b {
        assert pre[j] == beads[..b][j];
      }
    }
  }

  /** One step of the inner loop: emitting bead `b` extends the residue's atoms by one. */
  lemma ResidueAtomsSnoc(done: seq<Atom>, atoms: seq<Atom>, res: Residue, m: AACGMap,
                         beads: seq<string>, b: nat)
    requires b < |beads| && BeadsCovered(res, m, beads[..b + 1])
    requires atoms == done + ResidueAtoms(res, m, beads[..b], |done| + 1)
    ensures atoms + [BeadAtom(res, beads[b], m[beads[b]], |atoms| + 1)]
            == done + ResidueAtoms(res, m, beads[..b + 1], |done| + 1)
  {
    var pre := beads[..b + 1];
    assert pre[..b] == beads[..b];
    var first := |done| + 1;
    var atom := BeadAtom(res, beads[b], m[beads[b]], first + b);
    assert ResidueAtoms(res, m, pre, first) == ResidueAtoms(res, m, beads[..b], first) + [atom];
  }

  lemma AllCoveredSnoc(residues: seq<Residue>, m: AACGMap, i: nat)
    requires i < |residues| && AllCovered(residues[..i], m) && ResidueCovered(residues[i], m)
    ensures AllCovered(residues[..i + 1], m)
  {
    forall j | 0 <= j < i ensures ResidueCovered(residues[j], m) {
      assert residues[..i][j] == residues[j];
    }
  }

  /** Covering every bead of an iteration order is covering the mapping. */
  lemma BeadsCoverResidue(res: Residue, m: AACGMap, beads: seq<string>)
    requires IsKeyOrder(beads, m) && BeadsCovered(res, m, beads)
    ensures ResidueCovered(res, m)
  {
    forall cg | cg in m ensures Covers(res, m[cg]) {
      var j :| 0 <= j < |beads| && beads[j] == cg;
    }
  }

  lemma CoarseAtomsSnoc(residues: seq<Residue>, m: AACGMap, beads: seq<string>, i: nat)
    requires i < |residues| && AllCovered(residues[..i + 1], m)
    requires forall b :: b in beads ==> b in m
    ensures AllCovered(residues[..i], m)
    ensures var done := CoarseAtoms(residues[..i], m, beads);
            CoarseAtoms(residues[..i + 1], m, beads) == done + ResidueAtoms(residues[i], m, beads, |done| + 1)
  {
    assert residues[..i + 1][..i] == residues[..i];
  }

  /** The residue × bead loop of `main`: fails when any bead atom is missing
      from any residue, and otherwise returns the input's title and box with
      the emitted pseudo-atoms.  `beads` is the mapping's iteration order. */
  method Aggregate(input: Structure, mapping: AACGMap, beads: seq<string>)
    returns (r: Result<CoarseStructure, AggregateError>)
    requires IsKeyOrder(beads, mapping)
    ensures r.Ok? <==> AllCovered(input.residues, mapping)
    ensures r.Ok? ==> r.value.title == input.title && r.value.boxSize == input.boxSize
    ensures r.Ok? ==> r.value.atoms == CoarseAtoms(input.residues, mapping, beads)
  {
    var residues := input.residues;
    var atoms: seq<Atom> := [];
    var atomNumber := 1;
    var ri := 0;
    while ri < |residues|
      invariant 0 <= ri <= |residues|
      invariant AllCovered(residues[..ri], mapping)
      invariant atoms == CoarseAtoms(residues[..ri], mapping, beads)
      invariant atomNumber == |atoms| + 1
    {
      var residue := residues[ri];
      ghost var done := atoms;
      var b := 0;
      while b < |beads|
        invariant 0 <= b <= |beads|
        invariant BeadsCovered(residue, mapping, beads[..b])
        invariant atoms == done + ResidueAtoms(residue, mapping, beads[..b], |done| + 1)
        invariant atomNumber == |atoms| + 1
      {
        var cg := beads[b];
        var bead := ReduceBead(residue, mapping[cg]);
        if bead.None? {
          assert !Covers(residues[ri], mapping[cg]);
          return Err(MissingAtom);
        }
        var (position, velocity) := bead.value;
        BeadsCoveredSnoc(residue, mapping, beads, b);
        ResidueAtomsSnoc(done, atoms, residue, mapping, beads, b);
        atoms := atoms + [Atom(residue.number, residue.name, cg, atomNumber, position, velocity)];
        atomNumber := atomNumber + 1;
        b := b + 1;
      }
      assert beads[..b] == beads;
      BeadsCoverResidue(residue, mapping, beads);
      AllCoveredSnoc(residues, mapping, ri);
      CoarseAtomsSnoc(residues, mapping, beads, ri);
      ri := ri + 1;
    }
    assert residues[..ri] == residues;
    r := Ok(CoarseStructure(input.title, atoms, input.boxSize));
  }

  // ---------------------------------------------------------------------
  // Shape of the output

  /** The residue's atoms are its beads in iteration order, numbered on from `first`. */
  lemma {:induction false} ResidueAtomsAt(res: Residue, m: AACGMap, beads: seq<string>, first: int, b: nat)
    requires BeadsCovered(res, m, beads) && b < |beads|
    ensures ResidueAtoms(res, m, beads, first)[b] == BeadAtom(res, beads[b], m[beads[b]], first + b)
  {
    var n := |beads| - 1;
    if b < n {
      assert beads[..n][b] == beads[b];
      ResidueAtomsAt(res, m, beads[..n], first, b);
    }
  }

  lemma MulStep(r: nat, n: nat, width: nat, b: nat)
    requires r < n && b < width
    ensures r * width + b < n * width
  {
    assert n * width == r * width + width + (n - r - 1) * width;
  }

  /** The atom at index r·B + b comes from residue r and bead b: it carries the
      residue's number and name, the bead's name, the number r·B + b + 1, and
      the bead's mass-weighted centroids. */
  lemma {:induction false} CoarseAtomsAt(residues: seq<Residue>, m: AACGMap, beads: seq<string>, r: nat, b: nat)
    requires AllCovered(residues, m) && (forall cg :: cg in beads ==> cg in m)
    requires r < |residues| && b < |beads|
    ensures r * |beads| + b < |CoarseAtoms(residues, m, beads)|
    ensures var a := CoarseAtoms(residues, m, beads)[r * |beads| + b];
            && a.resNumber == residues[r].number
            && a.resName == residues[r].name
            && a.atomName == beads[b]
            && a.atomNumber == r * |beads| + b + 1
            && a.position == Centroid(residues[r], m[beads[b]], Position)
            && a.velocity == Centroid(residues[r], m[beads[b]], Velocity)
  {
    var n := |residues| - 1;
    var done := CoarseAtoms(residues[..n], m, beads);
    assert AllCovered(residues[..n], m) by {
      forall j | 0 <= j < n ensures ResidueCovered(residues[..n][j], m) {
        assert residues[..n][j] == residues[j];
      }
    }
    assert BeadsCovered(residues[n], m, beads);
    if r == n {
      ResidueAtomsAt(residues[n], m, beads, |done| + 1, b);
    } else {
      MulStep(r, n, |beads|, b);
      assert residues[..n][r] == residues[r];
      CoarseAtomsAt(residues[..n], m, beads, r, b);
    }
  }

  /** The emitted atom numbers are 1, 2, …, N in emission order. */
  lemma {:induction false} CoarseAtomsNumbered(residues: seq<Residue>, m: AACGMap, beads: seq<string>, k: nat)
    requires AllCovered(residues, m) && (forall cg :: cg in beads ==> cg in m)
    requires k < |CoarseAtoms(residues, m, beads)|
    ensures CoarseAtoms(residues, m, beads)[k].atomNumber == k + 1
  {
    var n := |residues| - 1;
    var done := CoarseAtoms(residues[..n], m, beads);
    assert AllCovered(residues[..n], m) by {
      forall j | 0 <= j < n ensures ResidueCovered(residues[..n][j], m) {
        assert residues[..n][j] == residues[j];
      }
    }
    if k < |done| {
      CoarseAtomsNumbered(residues[..n], m, beads, k);
    } else {
      assert BeadsCovered(residues[n], m, beads);
      ResidueAtomsAt(residues[n], m, beads, |done| + 1, k - |done|);
    }
  }

  /** One atom per residue and key of the mapping. */
  lemma CoarseAtomCount(residues: seq<Residue>, m: AACGMap, beads: seq<string>)
    requires AllCovered(residues, m) && IsKeyOrder(beads, m)
    ensures |CoarseAtoms(residues, m, beads)| == |residues| * |m|
  {
    KeyOrderSize(beads, m);
  }

  // ---------------------------------------------------------------------
  // The centroid

  /** Σ mᵢ·(vᵢ − p) = Σ mᵢ·vᵢ − (Σ mᵢ)·p. */
  lemma {:induction false} OffsetsFromMoment(res: Residue, list: seq<Entry>, c: Component, p: Vec3)
    requires Covers(res, list)
    ensures Offsets(res, list, c, p) == Add(Moment(res, list, c), Scale(-TotalMass(list), p))
  {
    if |list| > 0 {
      var n := |list| - 1;
      var init, a, m := list[..n], list[n].0, list[n].1;
      OffsetsFromMoment(res, init, c, p);
      var v := Coord(res.atoms[a], c);
      var o, mo, t := Offsets(res, init, c, p), Moment(res, init, c), TotalMass(init);
      assert Offsets(res, list, c, p) == Add(o, Scale(m, Add(v, Scale(-1.0, p))));
      assert Moment(res, list, c) == Add(mo, Scale(m, v));
      assert TotalMass(list) == t + m;
      OffsetStepVec(o, mo, t, m, v, p);
    }
  }

  lemma OffsetStep(o: real, mo: real, t: real, m: real, v: real, p: real)
    requires o == mo + -t * p
    ensures o + m * (v + -1.0 * p) == (mo + m * v) + -(t + m) * p
  {
  }

  lemma OffsetStepVec(o: Vec3, mo: Vec3, t: real, m: real, v: Vec3, p: Vec3)
    requires o == Add(mo, Scale(-t, p))
    ensures Add(o, Scale(m, Add(v, Scale(-1.0, p)))) == Add(Add(mo, Scale(m, v)), Scale(-(t + m), p))
  {
    OffsetStep(o.x, mo.x, t, m, v.x, p.x);
    OffsetStep(o.y, mo.y, t, m, v.y, p.y);
    OffsetStep(o.z, mo.z, t, m, v.z, p.z);
  }

  lemma DivisionIsUnique(a: real, t: real, q: real)
    requires t != 0.0
    ensures a / t == q <==> a == t * q
  {
    if a == t * q {
      assert a / t == (t * q) / t;
    }
  }

  lemma ComponentMean(a: real, t: real, q: real)
    requires t != 0.0
    ensures Quotient(a, t) == Finite(q) <==> a + -t * q == 0.0
  {
    DivisionIsUnique(a, t, q);
  }

  lemma MeanVec(mo: Vec3, t: real, p: Vec3)
    requires t != 0.0
    ensures DivideVec(mo, t) == Finite3(p) <==> Add(mo, Scale(-t, p)) == Zero()
  {
    ComponentMean(mo.x, t, p.x);
    ComponentMean(mo.y, t, p.y);
    ComponentMean(mo.z, t, p.z);
  }

  /** With a non-zero total mass, the computed position (or velocity) is the
      point p, and the only one, about which the mass-weighted offsets
      Σ mᵢ·(vᵢ − p) vanish: the mass-weighted mean Σ mᵢ·vᵢ / Σ mᵢ. */
  lemma CentroidIsWeightedMean(res: Residue, list: seq<Entry>, c: Component, p: Vec3)
    requires Covers(res, list) && TotalMass(list) != 0.0
    ensures Centroid(res, list, c) == Finite3(p) <==> Offsets(res, list, c, p) == Zero()
  {
    var mo, t := Moment(res, list, c), TotalMass(list);
    assert Offsets(res, list, c, p) == Add(mo, Scale(-t, p)) by {
      OffsetsFromMoment(res, list, c, p);
    }
    assert DivideVec(mo, t) == Finite3(p) <==> Add(mo, Scale(-t, p)) == Zero() by {
      MeanVec(mo, t, p);
    }
    assert Centroid(res, list, c) == DivideVec(mo, t);
  }

  /** The source does not check for a zero total mass: the division then
      yields infinities or NaN in every component, and no finite coordinate. */
  lemma ZeroMassIsNotFinite(res: Residue, list: seq<Entry>, c: Component)
    requires Covers(res, list) && TotalMass(list) == 0.0
    ensures var q := Centroid(res, list, c); !q.x.Finite? && !q.y.Finite? && !q.z.Finite?
  {
  }

  /** Two atoms: (m₁·v₁ + m₂·v₂) / (m₁ + m₂), componentwise. */
  lemma TwoAtomCentroid(res: Residue, a1: string, m1: real, a2: string, m2: real, c: Component)
    requires a1 in res.atoms && a2 in res.atoms && m1 + m2 != 0.0
    ensures var v1, v2 := Coord(res.atoms[a1], c), Coord(res.atoms[a2], c);
            Covers(res, [(a1, m1), (a2, m2)])
            && Centroid(res, [(a1, m1), (a2, m2)], c)
               == Finite3(Vec3((m1 * v1.x + m2 * v2.x) / (m1 + m2),
                               (m1 * v1.y + m2 * v2.y) / (m1 + m2),
                               (m1 * v1.z + m2 * v2.z) / (m1 + m2)))
  {
    var list := [(a1, m1), (a2, m2)];
    var v1, v2 := Coord(res.atoms[a1], c), Coord(res.atoms[a2], c);
    assert list[..1] == [(a1, m1)];
    assert [(a1, m1)][..0] == [];
    assert TotalMass([(a1, m1)]) == m1;
    assert Moment(res, [(a1, m1)], c) == Add(Zero(), Scale(m1, v1));
    assert TotalMass(list) == m1 + m2;
    assert Moment(res, list, c) == Add(Add(Zero(), Scale(m1, v1)), Scale(m2, v2));
  }

  // ---------------------------------------------------------------------
  // Invariance under scaling of the masses

  /** `scaled` is the bead list `list` with every mass multiplied by `k`. */
  predicate ScaledBy(scaled: seq<Entry>, list: seq<Entry>, k: real)
  {
    |scaled| == |list| &&
    forall i :: 0 <= i < |list| ==> scaled[i].0 == list[i].0 && scaled[i].1 == k * list[i].1
  }

  lemma ScaleDistributes(mo: Vec3, k: real, m: real, km: real, v: Vec3)
    requires km == k * m
    ensures Add(Scale(k, mo), Scale(km, v)) == Scale(k, Add(mo, Scale(m, v)))
  {
  }

  lemma MassDistributes(a: real, b: real, km: real, m: real, k: real, s: real, t: real)
    requires a == k * b && s == a + km && t == b + m && km == k * m
    ensures s == k * t
  {
  }

  lemma {:induction false} ScaledTotal(scaled: seq<Entry>, list: seq<Entry>, k: real)
    requires ScaledBy(scaled, list, k)
    ensures TotalMass(scaled) == k * TotalMass(list)
  {
    if |list| > 0 {
      var n := |list| - 1;
      assert ScaledBy(scaled[..n], list[..n], k);
      ScaledTotal(scaled[..n], list[..n], k);
      MassDistributes(TotalMass(scaled[..n]), TotalMass(list[..n]), scaled[n].1, list[n].1, k,
                      TotalMass(scaled), TotalMass(list));
    }
  }

  lemma {:induction false} ScaledMoment(res: Residue, scaled: seq<Entry>, list: seq<Entry>, k: real, c: Component)
    requires Covers(res, list) && ScaledBy(scaled, list, k)
    ensures Covers(res, scaled)
    ensures Moment(res, scaled, c) == Scale(k, Moment(res, list, c))
  {
    if |list| > 0 {
      var n := |list| - 1;
      assert ScaledBy(scaled[..n], list[..n], k);
      ScaledMoment(res, scaled[..n], list[..n], k, c);
      var v := Coord(res.atoms[list[n].0], c);
      var mo := Moment(res, list[..n], c);
      assert Moment(res, scaled, c) == Add(Scale(k, mo), Scale(scaled[n].1, v));
      assert Moment(res, list, c) == Add(mo, Scale(list[n].1, v));
      ScaleDistributes(mo, k, list[n].1, scaled[n].1, v);
    }
  }

  lemma QuotientScaled(a: real, t: real, k: real)
    requires k > 0.0
    ensures Quotient(k * a, k * t) == Quotient(a, t)
  {
    if t != 0.0 {
      assert (k * a) / (k * t) == a / t by {
        DivisionIsUnique(k * a, k * t, a / t);
      }
    }
  }

  /** Multiplying every mass of a bead by the same positive factor leaves its
      centroid unchanged, zero total mass included. */
  lemma CentroidScaleInvariant(res: Residue, scaled: seq<Entry>, list: seq<Entry>, k: real, c: Component)
    requires Covers(res, list) && ScaledBy(scaled, list, k) && k > 0.0
    ensures Covers(res, scaled)
    ensures Centroid(res, scaled, c) == Centroid(res, list, c)
  {
    ScaledTotal(scaled, list, k);
    ScaledMoment(res, scaled, list, k, c);
    var mo, t := Moment(res, list, c), TotalMass(list);
    QuotientScaled(mo.x, t, k);
    QuotientScaled(mo.y, t, k);
    QuotientScaled(mo.z, t, k);
    assert Moment(res, scaled, c) == Scale(k, mo);
    assert TotalMass(scaled) == k * t;
    assert Centroid(res, scaled, c) == DivideVec(Moment(res, scaled, c), TotalMass(scaled));
  }
}
