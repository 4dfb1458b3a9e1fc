/**
 * The scalar field and the two source groups of the curve, kept abstract.
 *
 * Field elements, G1 points and G2 points are type parameters; the
 * operations the core uses are passed in as values. No algebraic law is
 * assumed: every fact proved below holds for any `one` and any `mul`, and a
 * law is named as a hypothesis where one is needed.
 */
module Algebra {

  /** The multiplicative part of the scalar field `Fr`: its identity and product. */
  datatype Field<!F> = Field(one: F, mul: (F, F) -> F)

  /** A source group together with its fixed generator and scalar multiplication. */
  datatype Group<!F, !G> = Group(generator: G, scale: (G, F) -> G)

  /**
   * `x` raised to `i`, computed as a running product that starts at `one`
   * and multiplies by `x` on the right: one, one*x, (one*x)*x, ...
   */
  function Pow<F>(f: Field<F>, x: F, i: nat): F
  {
    if i == 0 then f.one else f.mul(Pow(f, x, i - 1), x)
  }

  /**
   * Element `i` of a root-of-unity table: one, root, root*root,
   * (root*root)*root, ...  Element 1 is `root` itself, not one*root.
   */
  function RootPower<F>(f: Field<F>, root: F, i: nat): F
  {
    if i == 0 then f.one
    else if i == 1 then root
    else f.mul(RootPower(f, root, i - 1), root)
  }

  /**
   * The table and the running product agree as soon as `one` is a left
   * identity for `root`; without that law they may differ from index 1 on.
   */
  lemma {:induction false} RootPowerIsPow<F>(f: Field<F>, root: F, i: nat)
    requires f.mul(f.one, root) == root
    ensures RootPower(f, root, i) == Pow(f, root, i)
  {
    if i > 1 {
      RootPowerIsPow(f, root, i - 1);
    }
  }
}
