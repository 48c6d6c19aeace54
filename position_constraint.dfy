/**
 * A position constraint: one named atom is held at its reference position.
 * Atom positions are stored per species as flat rows x0 y0 z0 x1 y1 z1 ...;
 * the constrained atom is species is1, index ia1 within it.
 * The vector length is a parameter.
 */
module PositionConstraints {
  import opened Numbers

  /** The position of atom ia in a species row. */
  function AtomAt(row: seq<real>, ia: nat): (p: Vec3)
    requires 3 * ia + 3 <= |row|
    ensures p.x == row[3 * ia] && p.y == row[3 * ia + 1] && p.z == row[3 * ia + 2]
  {
    Vec3(row[3 * ia], row[3 * ia + 1], row[3 * ia + 2])
  }

  /** The row rp with atom ia moved to its position in r0. */
  function Restored(r0: seq<real>, rp: seq<real>, ia: nat): (row: seq<real>)
    requires 3 * ia + 3 <= |r0| && 3 * ia + 3 <= |rp|
    ensures |row| == |rp|
    ensures AtomAt(row, ia) == AtomAt(r0, ia)
    ensures forall k :: 0 <= k < |rp| && !(3 * ia <= k < 3 * ia + 3) ==> row[k] == rp[k]
  {
    rp[3 * ia := r0[3 * ia]][3 * ia + 1 := r0[3 * ia + 1]][3 * ia + 2 := r0[3 * ia + 2]]
  }

  /** The row v with atom ia's velocity set to zero. */
  function Stopped(v: seq<real>, ia: nat): (row: seq<real>)
    requires 3 * ia + 3 <= |v|
    ensures |row| == |v|
    ensures AtomAt(row, ia) == Zero3
    ensures forall k :: 0 <= k < |v| && !(3 * ia <= k < 3 * ia + 3) ==> row[k] == v[k]
  {
    v[3 * ia := 0.0][3 * ia + 1 := 0.0][3 * ia + 2 := 0.0]
  }

  /** Restoring twice is restoring once, and a restored atom sits exactly at
      its reference position, so a second enforcement finds it satisfied
      whenever the zero vector is shorter than the tolerance. */
  lemma RestoreIdempotent(r0: seq<real>, rp: seq<real>, ia: nat, length: Vec3 -> real, tol: real)
    requires 3 * ia + 3 <= |r0| && 3 * ia + 3 <= |rp|
    requires length(Zero3) < tol
    ensures Restored(r0, Restored(r0, rp, ia), ia) == Restored(r0, rp, ia)
    ensures length(Sub3(AtomAt(Restored(r0, rp, ia), ia), AtomAt(r0, ia))) < tol
  {
    var once := Restored(r0, rp, ia);
    var twice := Restored(r0, once, ia);
    assert forall k :: 0 <= k < |once| ==> twice[k] == once[k];
    var p := AtomAt(r0, ia);
    assert Sub3(p, p) == Zero3;
  }

  class PositionConstraint {
    const atomName: string
    const tol: real
    var is1: int
    var ia1: int
    var force: real

    constructor (name: string, tolerance: real)
      ensures atomName == name && tol == tolerance && force == 0.0
    {
      atomName := name;
      tol := tolerance;
      is1 := -1;
      ia1 := -1;
      force := 0.0;
    }

    /** Looks the atom up by name; the lookups must find it. */
    method Setup(speciesOf: string -> int, indexOf: string -> int)
      requires speciesOf(atomName) >= 0 && indexOf(atomName) >= 0
      modifies this`is1, this`ia1
      ensures is1 == speciesOf(atomName) && ia1 == indexOf(atomName)
      ensures is1 >= 0 && ia1 >= 0
    {
      is1 := speciesOf(atomName);
      ia1 := indexOf(atomName);
    }

    /** Nothing in a position constraint depends on time. */
    method Update(dt: real)
      ensures is1 == old(is1) && ia1 == old(ia1) && force == old(force)
    {
    }

    ghost predicate Located(rows: seq<seq<real>>)
      reads this
    {
      0 <= is1 < |rows| && ia1 >= 0 && 3 * ia1 + 3 <= |rows[is1]|
    }

    /**
     * enforce_r: true, changing nothing, when the atom in rp lies within tol
     * of its position in r0; otherwise the atom is put back at its r0
     * position, the rest of rp stays as it was, and the result is false.
     */
    method EnforceR(r0: seq<seq<real>>, rp: seq<array<real>>, length: Vec3 -> real) returns (ok: bool)
      requires Located(r0) && is1 < |rp| && 3 * ia1 + 3 <= rp[is1].Length
      modifies rp[is1]
      ensures ok <==> length(Sub3(AtomAt(old(rp[is1][..]), ia1), AtomAt(r0[is1], ia1))) < tol
      ensures ok ==> rp[is1][..] == old(rp[is1][..])
      ensures !ok ==> rp[is1][..] == Restored(r0[is1], old(rp[is1][..]), ia1)
    {
      var row := rp[is1];
      var r1 := AtomAt(r0[is1], ia1);
      var r1p := Vec3(row[3 * ia1], row[3 * ia1 + 1], row[3 * ia1 + 2]);
      var sigma := length(Sub3(r1p, r1));
      if sigma < tol {
        return true;
      }
      row[3 * ia1] := r0[is1][3 * ia1];
      row[3 * ia1 + 1] := r0[is1][3 * ia1 + 1];
      row[3 * ia1 + 2] := r0[is1][3 * ia1 + 2];
      return false;
    }

    /**
     * enforce_v: true, changing nothing, when the atom's velocity is shorter
     * than tol; otherwise the velocity is zeroed and the result is false.
     */
    method EnforceV(r0: seq<seq<real>>, v0: seq<array<real>>, length: Vec3 -> real) returns (ok: bool)
      requires Located(r0) && is1 < |v0| && 3 * ia1 + 3 <= v0[is1].Length
      modifies v0[is1]
      ensures ok <==> length(AtomAt(old(v0[is1][..]), ia1)) < tol
      ensures ok ==> v0[is1][..] == old(v0[is1][..])
      ensures !ok ==> v0[is1][..] == Stopped(old(v0[is1][..]), ia1)
    {
      var row := v0[is1];
      var v1 := Vec3(row[3 * ia1], row[3 * ia1 + 1], row[3 * ia1 + 2]);
      var err := length(v1);
      if err < tol {
        return true;
      }
      row[3 * ia1] := 0.0;
      row[3 * ia1 + 1] := 0.0;
      row[3 * ia1 + 2] := 0.0;
      return false;
    }

    /** The constraint force is the length of the force on the atom. */
    method ComputeForce(r0: seq<seq<real>>, f: seq<seq<real>>, length: Vec3 -> real)
      requires Located(r0) && Located(f)
      modifies this`force
      ensures force == length(AtomAt(f[is1], ia1))
    {
      var f1 := AtomAt(f[is1], ia1);
      force := length(f1);
    }
  }
}
