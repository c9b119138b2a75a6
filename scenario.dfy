/** A worked instance of the whole pipeline: a one-row mapping table and a
    one-residue structure. */
module Scenario {
  import opened Text
  import opened Mapping
  import opened Aggregation

  /** The row ("CA", "BACKBONE", 12.0) makes the bead BACKBONE out of the single
      atom CA of mass 12. */
  lemma SingleRowMapping()
    ensures Group([AACGItem("CA", "BACKBONE", 12.0)]) == map["BACKBONE" := [("CA", 12.0)]]
  {
    TrimUnchanged("CA");
    TrimUnchanged("BACKBONE");
    var items := [AACGItem("CA", "BACKBONE", 12.0)];
    assert items[..0] == [];
    assert Key(items[0]) == "BACKBONE" && EntryOf(items[0]) == ("CA", 12.0);
    assert Group(items) == map[]["BACKBONE" := [] + [("CA", 12.0)]];
    assert [] + [("CA", 12.0)] == [("CA", 12.0)];
    assert map[]["BACKBONE" := [("CA", 12.0)]] == map["BACKBONE" := [("CA", 12.0)]];
  }

  /** With that mapping, residue 1 ALA with CA at (1, 2, 3) and at rest gives
      one pseudo-atom BACKBONE numbered 1, at (1, 2, 3) and at rest. */
  lemma SingleBeadScenario()
    ensures var res := Residue(1, "ALA", map["CA" := AtomState(Vec3(1.0, 2.0, 3.0), Zero())]);
            var m := map["BACKBONE" := [("CA", 12.0)]];
            && AllCovered([res], m)
            && CoarseAtoms([res], m, ["BACKBONE"])
               == [Atom(1, "ALA", "BACKBONE", 1, Finite3(Vec3(1.0, 2.0, 3.0)), Finite3(Zero()))]
  {
    var res := Residue(1, "ALA", map["CA" := AtomState(Vec3(1.0, 2.0, 3.0), Zero())]);
    var m := map["BACKBONE" := [("CA", 12.0)]];
    var list := m["BACKBONE"];
    var beads := ["BACKBONE"];
    assert list[..0] == [];
    assert TotalMass(list) == 12.0;
    assert Moment(res, list, Position) == Vec3(12.0, 24.0, 36.0);
    assert Moment(res, list, Velocity) == Zero();
    assert Centroid(res, list, Position) == Finite3(Vec3(1.0, 2.0, 3.0));
    assert Centroid(res, list, Velocity) == Finite3(Zero());
    assert beads[..0] == [];
    assert ResidueAtoms(res, m, beads, 1) == [BeadAtom(res, "BACKBONE", list, 1)];
    assert [res][..0] == [];
    assert CoarseAtoms([res], m, beads) == [] + ResidueAtoms(res, m, beads, 1);
  }
}
