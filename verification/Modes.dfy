/** The five multi-granularity lock modes, their compatibility matrix and their lattice. */
module Modes {

  /** Intention shared, intention exclusive, shared, shared + intention exclusive, exclusive. */
  datatype LockMode = IS | IX | S | SIX | X

  /** May two different transactions hold these modes on one resource at once? */
  predicate Compatible(a: LockMode, b: LockMode) {
    match a
    case IS => b != X
    case IX => b == IS || b == IX
    case S => b == IS || b == S
    case SIX => b == IS
    case X => false
  }

  /** The mode an upgrade resolves to. */
  function Join(a: LockMode, b: LockMode): LockMode {
    match a
    case IS => b
    case IX => (match b case IS => IX case IX => IX case S => SIX case SIX => SIX case X => X)
    case S => (match b case IS => S case IX => SIX case S => S case SIX => SIX case X => X)
    case SIX => if b == X then X else SIX
    case X => X
  }

  predicate Covers(a: LockMode, b: LockMode) {
    Join(a, b) == a
  }

  /** What a mode lets its holder do in the subtree below the resource. */
  datatype Rights = Rights(readAll: bool, writeAll: bool, readSome: bool, writeSome: bool)

  function RightsOf(m: LockMode): Rights {
    match m
    case IS => Rights(false, false, true, false)
    case IX => Rights(false, false, true, true)
    case S => Rights(true, false, true, false)
    case SIX => Rights(true, false, true, true)
    case X => Rights(true, true, true, true)
  }

  predicate Includes(a: Rights, b: Rights) {
    (b.readAll ==> a.readAll) && (b.writeAll ==> a.writeAll) &&
    (b.readSome ==> a.readSome) && (b.writeSome ==> a.writeSome)
  }

  predicate Clash(a: Rights, b: Rights) {
    (a.writeAll && b.readSome) || (b.writeAll && a.readSome) ||
    (a.readAll && b.writeSome) || (b.readAll && a.writeSome)
  }

  /** The tables say what the rights say: a mode pair is incompatible exactly when the rights
      clash, and covering is inclusion of rights. */
  lemma TablesMatchRights(a: LockMode, b: LockMode)
    ensures Compatible(a, b) <==> !Clash(RightsOf(a), RightsOf(b))
    ensures Covers(a, b) <==> Includes(RightsOf(a), RightsOf(b))
  {
  }

  lemma JoinIsLeastUpperBound(a: LockMode, b: LockMode, c: LockMode)
    ensures Covers(Join(a, b), a) && Covers(Join(a, b), b)
    ensures Covers(c, a) && Covers(c, b) ==> Covers(c, Join(a, b))
  {
  }

  lemma CoversIsPartialOrder(a: LockMode, b: LockMode, c: LockMode)
    ensures Covers(a, a)
    ensures Covers(a, b) && Covers(b, a) ==> a == b
    ensures Covers(a, b) && Covers(b, c) ==> Covers(a, c)
  {
  }

  /** The fact every grant proof rests on: what is compatible with two modes is exactly what is
      compatible with their join. */
  lemma CompatibleWithJoin(h: LockMode, a: LockMode, b: LockMode)
    ensures Compatible(h, Join(a, b)) <==> Compatible(h, a) && Compatible(h, b)
    ensures Compatible(a, b) == Compatible(b, a)
  {
  }
}
