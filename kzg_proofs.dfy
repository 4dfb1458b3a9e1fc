/**
 * The domain builder and the trusted-setup generator of the arkworks KZG
 * backend, with the two records that hold their outputs.
 */
module KzgProofs {
  import opened Wrappers
  import opened Algebra

  /** The 32-byte secret a setup ceremony supplies. */
  type Seed = s: seq<bv8> | |s| == 32 witness seq(32, _ => 0)

  /**
   * An evaluation domain. `expandedRootsOfUnity` is the table built by
   * `ExpandRootOfUnity`; the two other orderings are built elsewhere.
   */
  datatype FftSettings<F> = FftSettings(
    maxWidth: nat,
    rootOfUnity: F,
    expandedRootsOfUnity: seq<F>,
    reverseRootsOfUnity: seq<F>,
    rootsOfUnity: seq<F>)
  {
    /** The expanded table is what the domain builder yields for this root and width. */
    ghost predicate HasExpandedTable(f: Field<F>)
    {
      Expand(f, rootOfUnity, maxWidth) == Ok(expandedRootsOfUnity)
    }
  }

  /**
   * A domain, a structured reference string and an optional shared
   * precomputation table (of some type `P`), absent by default.
   */
  datatype KzgSettings<F, G1, G2, P> = KzgSettings(
    fs: FftSettings<F>,
    secretG1: seq<G1>,
    secretG2: seq<G2>,
    precomputation: Option<P>)
  {
    /** The two point sequences are a reference string for the secret scalar `s`. */
    ghost predicate HasSrs(fr: Field<F>, g1: Group<F, G1>, g2: Group<F, G2>, s: F)
    {
      IsTrustedSetup(fr, g1, g2, s, |secretG1|, secretG1, secretG2)
    }
  }

  /** The two failures of the domain builder. */
  datatype ExpandError =
    | CycleTooLong   // "Root of unity multiplied for too long"
    | InvalidScale   // "Root of unity has invalid scale"

  // ---------------------------------------------------------------------
  // Domain builder: expand_root_of_unity
  // ---------------------------------------------------------------------

  /**
   * The last table index the builder inspects before it gives up: the
   * table starts with two elements, so even for width 0 index 1 is looked at.
   */
  function SearchBound(width: nat): nat
  {
    if width == 0 then 1 else width
  }

  /** The smallest index in `k..bound` at which the table returns to one. */
  function FirstReturn<F(==)>(f: Field<F>, root: F, k: nat, bound: nat): (r: Option<nat>)
    decreases bound + 1 - k
    ensures r.Some? ==> k <= r.value <= bound && RootPower(f, root, r.value) == f.one
    ensures r.Some? ==> forall j :: k <= j < r.value ==> RootPower(f, root, j) != f.one
    ensures r.None? ==> forall j :: k <= j <= bound ==> RootPower(f, root, j) != f.one
  {
    if k > bound then None
    else if RootPower(f, root, k) == f.one then Some(k)
    else FirstReturn(f, root, k + 1, bound)
  }

  /** No table index in `1..n-1` is one. */
  ghost predicate NoOneBefore<F>(f: Field<F>, root: F, n: nat)
  {
    forall j :: 1 <= j < n ==> RootPower(f, root, j) != f.one
  }

  /** Index `n` is the first index from 1 on at which the table returns to one. */
  ghost predicate ClosesFirstAt<F>(f: Field<F>, root: F, n: nat)
  {
    n >= 1 && RootPower(f, root, n) == f.one && NoOneBefore(f, root, n)
  }

  /** `powers` is the table of `root` cut to its length. */
  ghost predicate IsTablePrefix<F>(f: Field<F>, root: F, powers: seq<F>)
  {
    forall i :: 0 <= i < |powers| ==> powers[i] == RootPower(f, root, i)
  }

  /** The first return is the one index in range that is one with no one before it. */
  lemma FirstReturnIs<F>(f: Field<F>, root: F, bound: nat, k: nat)
    requires k <= bound && ClosesFirstAt(f, root, k)
    ensures FirstReturn(f, root, 1, bound) == Some(k)
  {
  }

  /** The first `n` elements of the table of `root`. */
  function RootTable<F>(f: Field<F>, root: F, n: nat): seq<F>
  {
    seq(n, i requires 0 <= i => RootPower(f, root, i))
  }

  /**
   * What building the table of `root` for a domain of size `width` yields:
   * the table up to its first return to one, provided that return is at
   * index `width`; a failure otherwise.
   */
  function Expand<F(==)>(f: Field<F>, root: F, width: nat): Result<seq<F>, ExpandError>
  {
    match FirstReturn(f, root, 1, SearchBound(width))
    case None => Err(CycleTooLong)
    case Some(k) =>
      if k == width then Ok(RootTable(f, root, width + 1))
      else Err(InvalidScale)
  }

  /**
   * Builds [one, root, root*root, ...] by appending the last element times
   * `root` until the last element is one. Fails with CycleTooLong when the
   * table holds more than `width` elements and has not closed, and with
   * InvalidScale when it closes at a length other than `width + 1`.
   * `pushes` counts the elements appended after the first two.
   */
  method ExpandRootOfUnity<F(==)>(f: Field<F>, root: F, width: nat)
    returns (r: Result<seq<F>, ExpandError>, ghost pushes: nat)
    ensures r == Expand(f, root, width)
    ensures pushes <= SearchBound(width) - 1
    ensures r.Ok? ==> pushes == width - 1
  {
    var powers := [f.one, root];
    pushes := 0;
    while powers[|powers| - 1] != f.one
      invariant 2 <= |powers| <= SearchBound(width) + 1
      invariant pushes == |powers| - 2
      invariant IsTablePrefix(f, root, powers)
      invariant NoOneBefore(f, root, |powers| - 1)
      decreases width + 1 - |powers|
    {
      if |powers| > width {
        TooLongExit(f, root, width, |powers|);
        r := Err(CycleTooLong);
        return;
      }
      powers := powers + [f.mul(powers[|powers| - 1], root)];
      pushes := pushes + 1;
    }
    ClosedExit(f, root, width, |powers|);
    if |powers| != width + 1 {
      r := Err(InvalidScale);
      return;
    }
    assert powers == RootTable(f, root, width + 1);
    r := Ok(powers);
  }

  /**
   * The loop's early exit: a table of `n` elements that has not closed and
   * holds more than `width` elements means no inspected index returns to one.
   */
  lemma TooLongExit<F>(f: Field<F>, root: F, width: nat, n: nat)
    requires 2 <= n <= SearchBound(width) + 1 && n > width
    requires NoOneBefore(f, root, n)
    ensures Expand(f, root, width) == Err(CycleTooLong)
  {
  }

  /**
   * The loop's normal exit: a table of `n` elements that has just closed
   * for the first time is the builder's table if `n == width + 1`, and is
   * rejected with InvalidScale otherwise.
   */
  lemma ClosedExit<F>(f: Field<F>, root: F, width: nat, n: nat)
    requires 2 <= n <= SearchBound(width) + 1
    requires ClosesFirstAt(f, root, n - 1)
    ensures Expand(f, root, width) ==
      if n == width + 1 then Ok(RootTable(f, root, n)) else Err(InvalidScale)
  {
  }

  /**
   * A successful table has `width + 1` elements, starts and ends at one,
   * begins with `root`, grows by a factor `root` at every later step, and
   * holds no one strictly inside: the loop stopped at the first return.
   */
  lemma ExpandOk<F>(f: Field<F>, root: F, width: nat)
    requires Expand(f, root, width).Ok?
    ensures var t := Expand(f, root, width).value;
      && width >= 1
      && |t| == width + 1
      && t[0] == f.one && t[1] == root && t[width] == f.one
      && (forall i :: 1 <= i < width ==> t[i + 1] == f.mul(t[i], root))
      && (forall i :: 0 < i < width ==> t[i] != f.one)
  {
  }

  /** The builder succeeds exactly when `root` first returns to one at `width`. */
  lemma ExpandOkIff<F>(f: Field<F>, root: F, width: nat)
    ensures Expand(f, root, width).Ok? <==> ClosesFirstAt(f, root, width)
  {
    var fr := FirstReturn(f, root, 1, SearchBound(width));
    if ClosesFirstAt(f, root, width) {
      FirstReturnIs(f, root, SearchBound(width), width);
    } else if fr.Some? {
      assert RootPower(f, root, fr.value) == f.one;
    }
  }

  /** CycleTooLong exactly when no inspected index returns to one. */
  lemma ExpandTooLongIff<F>(f: Field<F>, root: F, width: nat)
    ensures Expand(f, root, width) == Err(CycleTooLong) <==>
      NoOneBefore(f, root, SearchBound(width) + 1)
  {
    var fr := FirstReturn(f, root, 1, SearchBound(width));
    if fr.Some? {
      assert RootPower(f, root, fr.value) == f.one;
    }
  }

  /** InvalidScale exactly when the first return to one is at an index other than `width`. */
  lemma ExpandInvalidScaleIff<F>(f: Field<F>, root: F, width: nat)
    ensures Expand(f, root, width) == Err(InvalidScale) <==>
      exists j: nat :: j <= SearchBound(width) && j != width && ClosesFirstAt(f, root, j)
  {
    var fr := FirstReturn(f, root, 1, SearchBound(width));
    if fr.Some? && fr.value != width {
      assert ClosesFirstAt(f, root, fr.value);
    }
    if exists j: nat :: j <= SearchBound(width) && j != width && ClosesFirstAt(f, root, j) {
      var j: nat :| j <= SearchBound(width) && j != width && ClosesFirstAt(f, root, j);
      FirstReturnIs(f, root, SearchBound(width), j);
    }
  }

  /**
   * The identity itself closes the table at length 2, so it is accepted
   * only for width 1; for instance width 4 is rejected with InvalidScale.
   */
  lemma IdentityRoot<F>(f: Field<F>, width: nat)
    ensures Expand(f, f.one, width) ==
      if width == 1 then Ok([f.one, f.one]) else Err(InvalidScale)
  {
    assert RootPower(f, f.one, 1) == f.one;
    if width == 1 {
      var t := RootTable(f, f.one, 2);
      assert t == [f.one, f.one];
    }
  }

  // ---------------------------------------------------------------------
  // Trusted setup: generate_trusted_setup
  // ---------------------------------------------------------------------

  /**
   * `s1` and `s2` are the first `len` points of a structured reference
   * string for the secret scalar `s`: the generators scaled by s^0, s^1, ...
   */
  ghost predicate IsTrustedSetup<F, G1, G2>(
    fr: Field<F>, g1: Group<F, G1>, g2: Group<F, G2>, s: F, len: nat,
    s1: seq<G1>, s2: seq<G2>)
  {
    && |s1| == len
    && |s2| == len
    && forall i :: 0 <= i < len ==>
         s1[i] == g1.scale(g1.generator, Pow(fr, s, i))
         && s2[i] == g2.scale(g2.generator, Pow(fr, s, i))
  }

  /**
   * Derives the secret scalar from `secret` and pushes the two generators
   * scaled by a running power of it, `len` times.
   */
  method GenerateTrustedSetup<F, G1, G2>(
    fr: Field<F>, g1: Group<F, G1>, g2: Group<F, G2>,
    hashToField: Seed -> F, len: nat, secret: Seed)
    returns (s1: seq<G1>, s2: seq<G2>)
    ensures IsTrustedSetup(fr, g1, g2, hashToField(secret), len, s1, s2)
  {
    var s := hashToField(secret);
    var sPow := fr.one;
    s1, s2 := [], [];
    for i := 0 to len
      invariant sPow == Pow(fr, s, i)
      invariant IsTrustedSetup(fr, g1, g2, s, i, s1, s2)
    {
      s1 := s1 + [g1.scale(g1.generator, sPow)];
      s2 := s2 + [g2.scale(g2.generator, sPow)];
      sPow := fr.mul(sPow, s);
    }
  }

  /** A reference string is determined by its length and secret scalar. */
  lemma TrustedSetupUnique<F, G1, G2>(
    fr: Field<F>, g1: Group<F, G1>, g2: Group<F, G2>, s: F, len: nat,
    a1: seq<G1>, a2: seq<G2>, b1: seq<G1>, b2: seq<G2>)
    requires IsTrustedSetup(fr, g1, g2, s, len, a1, a2)
    requires IsTrustedSetup(fr, g1, g2, s, len, b1, b2)
    ensures a1 == b1 && a2 == b2
  {
  }

  /** Length zero gives two empty sequences. */
  lemma TrustedSetupEmpty<F, G1, G2>(
    fr: Field<F>, g1: Group<F, G1>, g2: Group<F, G2>, s: F,
    s1: seq<G1>, s2: seq<G2>)
    requires IsTrustedSetup(fr, g1, g2, s, 0, s1, s2)
    ensures s1 == [] && s2 == []
  {
  }

  /** The first points are the generators scaled by one. */
  lemma TrustedSetupFirst<F, G1, G2>(
    fr: Field<F>, g1: Group<F, G1>, g2: Group<F, G2>, s: F, len: nat,
    s1: seq<G1>, s2: seq<G2>)
    requires len >= 1 && IsTrustedSetup(fr, g1, g2, s, len, s1, s2)
    ensures s1[0] == g1.scale(g1.generator, fr.one)
    ensures s2[0] == g2.scale(g2.generator, fr.one)
  {
  }

  // ---------------------------------------------------------------------
  // The settings records
  // ---------------------------------------------------------------------

  /**
   * A domain whose expanded table came from the builder has a positive
   * width, `maxWidth + 1` elements, one at both ends, a factor
   * `rootOfUnity` between neighbours from index 1 on, and no one inside.
   */
  lemma DomainTableInvariant<F>(f: Field<F>, fs: FftSettings<F>)
    requires fs.HasExpandedTable(f)
    ensures var t, w := fs.expandedRootsOfUnity, fs.maxWidth;
      && w >= 1
      && |t| == w + 1
      && t[0] == f.one && t[1] == fs.rootOfUnity && t[w] == f.one
      && (forall i :: 1 <= i < w ==> t[i + 1] == f.mul(t[i], fs.rootOfUnity))
      && (forall i :: 0 < i < w ==> t[i] != f.one)
  {
    ExpandOk(f, fs.rootOfUnity, fs.maxWidth);
  }

  /**
   * Settings whose points came from the trusted-setup generator hold two
   * sequences of equal length whose first points are the generators
   * scaled by one.
   */
  lemma SettingsSrsInvariant<F, G1, G2, P>(
    fr: Field<F>, g1: Group<F, G1>, g2: Group<F, G2>, s: F,
    ks: KzgSettings<F, G1, G2, P>)
    requires ks.HasSrs(fr, g1, g2, s)
    ensures |ks.secretG2| == |ks.secretG1|
    ensures |ks.secretG1| >= 1 ==>
      ks.secretG1[0] == g1.scale(g1.generator, fr.one)
      && ks.secretG2[0] == g2.scale(g2.generator, fr.one)
  {
    if |ks.secretG1| >= 1 {
      TrustedSetupFirst(fr, g1, g2, s, |ks.secretG1|, ks.secretG1, ks.secretG2);
    }
  }
}
