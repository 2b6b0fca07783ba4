/**
 `compareSemver` of app.js: dotted versions compared numerically component by
 component, a missing or unparsable component counting as 0, and the
 update-toast decision built on it.
 */
module Semver {
  import opened Wrappers
  import opened Text
  import opened JsNumber

  /** `parseInt(n, 10) || 0` for one dot-separated piece. */
  function Component(piece: string): int {
    OrZero(ParseInt(piece, Decimal))
  }

  /** The numeric components of a version string. */
  function Components(v: string): (p: seq<int>)
    ensures |p| == Count('.', v) + 1
  {
    var pieces := Split(v, '.');
    seq(|pieces|, i requires 0 <= i < |pieces| => Component(pieces[i]))
  }

  /** `p[i] || 0`: a component past the end reads as 0. */
  function At(p: seq<int>, i: nat): int {
    if i < |p| then p[i] else 0
  }

  function Max(a: nat, b: nat): nat {
    if a >= b then a else b
  }

  /** The comparison loop from index `i` up to (not including) `n`. */
  function CompareFrom(pa: seq<int>, pb: seq<int>, i: nat, n: nat): (r: int)
    ensures r == -1 || r == 0 || r == 1
    decreases n - i
  {
    if i >= n then 0
    else if At(pa, i) > At(pb, i) then 1
    else if At(pa, i) < At(pb, i) then -1
    else CompareFrom(pa, pb, i + 1, n)
  }

  /** The loop over `Math.max(pa.length, pb.length)` components. */
  function CompareComponents(pa: seq<int>, pb: seq<int>): (r: int)
    ensures r == -1 || r == 0 || r == 1
  {
    CompareFrom(pa, pb, 0, Max(|pa|, |pb|))
  }

  /** `compareSemver(a, b)`: 0 when either side is empty, otherwise -1, 0 or 1
      as the components of `a` are lexicographically below, equal to or
      above those of `b`. */
  function CompareSemver(a: string, b: string): (r: int)
    ensures r == -1 || r == 0 || r == 1
    ensures a == [] || b == [] ==> r == 0
  {
    if a == [] || b == [] then 0
    else CompareComponents(Components(a), Components(b))
  }

  // ---------------------------------------------------------------------------
  // The reference ordering: padded lexicographic comparison
  // ---------------------------------------------------------------------------

  /** `pa` and `pb` agree on every index below `k`, zero padding included. */
  predicate AgreeBelow(pa: seq<int>, pb: seq<int>, k: nat) {
    forall i: nat :: i < k ==> At(pa, i) == At(pb, i)
  }

  /** `pa` and `pb` are equal once both are padded with zeros. */
  ghost predicate PaddedEqual(pa: seq<int>, pb: seq<int>) {
    forall i: nat :: At(pa, i) == At(pb, i)
  }

  /** `pa` is above `pb` at the first index where they differ. */
  ghost predicate PaddedAbove(pa: seq<int>, pb: seq<int>) {
    exists k: nat :: AgreeBelow(pa, pb, k) && At(pa, k) > At(pb, k)
  }

  lemma {:induction false} CompareFromZero(pa: seq<int>, pb: seq<int>, i: nat, n: nat)
    requires i <= n
    ensures CompareFrom(pa, pb, i, n) == 0 <==> forall j: nat :: i <= j < n ==> At(pa, j) == At(pb, j)
    decreases n - i
  {
    if i < n {
      CompareFromZero(pa, pb, i + 1, n);
      if CompareFrom(pa, pb, i, n) == 0 {
        forall j: nat | i <= j < n ensures At(pa, j) == At(pb, j) {
          if j > i {
            assert i + 1 <= j < n;
          }
        }
      }
    }
  }

  lemma {:induction false} CompareFromOne(pa: seq<int>, pb: seq<int>, i: nat, n: nat)
    requires i <= n
    ensures CompareFrom(pa, pb, i, n) == 1 <==>
      exists k: nat :: i <= k < n && At(pa, k) > At(pb, k) &&
        forall j: nat :: i <= j < k ==> At(pa, j) == At(pb, j)
    decreases n - i
  {
    if i < n {
      CompareFromOne(pa, pb, i + 1, n);
      if At(pa, i) > At(pb, i) {
        assert i <= i < n && At(pa, i) > At(pb, i);
      } else if At(pa, i) < At(pb, i) {
        forall k: nat | i <= k < n && At(pa, k) > At(pb, k)
          ensures exists j: nat :: i <= j < k && At(pa, j) != At(pb, j)
        {
          assert i < k;
        }
      } else if CompareFrom(pa, pb, i + 1, n) == 1 {
        var k: nat :| i + 1 <= k < n && At(pa, k) > At(pb, k) &&
          forall j: nat :: i + 1 <= j < k ==> At(pa, j) == At(pb, j);
        assert forall j: nat :: i <= j < k ==> At(pa, j) == At(pb, j);
      } else {
        forall k: nat | i <= k < n && At(pa, k) > At(pb, k)
          ensures exists j: nat :: i <= j < k && At(pa, j) != At(pb, j)
        {
          if k > i {
            assert i + 1 <= k;
          }
        }
      }
    }
  }

  /** Past both lengths every component reads as 0. */
  lemma PastTheEnd(pa: seq<int>, pb: seq<int>, i: nat)
    requires i >= Max(|pa|, |pb|)
    ensures At(pa, i) == 0 && At(pb, i) == 0
  {
  }

  /** The comparison is 0 exactly when the zero-padded components agree. */
  lemma CompareZeroIff(pa: seq<int>, pb: seq<int>)
    ensures CompareComponents(pa, pb) == 0 <==> PaddedEqual(pa, pb)
  {
    var n := Max(|pa|, |pb|);
    CompareFromZero(pa, pb, 0, n);
    if CompareComponents(pa, pb) == 0 {
      forall i: nat ensures At(pa, i) == At(pb, i) {
        if i >= n {
          PastTheEnd(pa, pb, i);
        }
      }
    }
  }

  /** The comparison is 1 exactly when `pa` is above `pb` at the first index
      where the zero-padded components differ. */
  lemma CompareOneIff(pa: seq<int>, pb: seq<int>)
    ensures CompareComponents(pa, pb) == 1 <==> PaddedAbove(pa, pb)
  {
    var n := Max(|pa|, |pb|);
    CompareFromOne(pa, pb, 0, n);
    if CompareComponents(pa, pb) == 1 {
      var k: nat :| 0 <= k < n && At(pa, k) > At(pb, k) &&
        forall j: nat :: 0 <= j < k ==> At(pa, j) == At(pb, j);
      assert AgreeBelow(pa, pb, k);
    }
    if PaddedAbove(pa, pb) {
      var k: nat :| AgreeBelow(pa, pb, k) && At(pa, k) > At(pb, k);
      if k >= n {
        PastTheEnd(pa, pb, k);
      }
      assert forall j: nat :: 0 <= j < k ==> At(pa, j) == At(pb, j);
    }
  }

  /** Swapping the arguments negates the comparison. */
  lemma {:induction false} CompareFromAntisymmetric(pa: seq<int>, pb: seq<int>, i: nat, n: nat)
    ensures CompareFrom(pb, pa, i, n) == -CompareFrom(pa, pb, i, n)
    decreases n - i
  {
    if i < n && At(pa, i) == At(pb, i) {
      CompareFromAntisymmetric(pa, pb, i + 1, n);
    }
  }

  lemma CompareSemverAntisymmetric(a: string, b: string)
    ensures CompareSemver(b, a) == -CompareSemver(a, b)
  {
    if a != [] && b != [] {
      var pa, pb := Components(a), Components(b);
      assert Max(|pb|, |pa|) == Max(|pa|, |pb|);
      CompareFromAntisymmetric(pa, pb, 0, Max(|pa|, |pb|));
    }
  }

  lemma CompareSemverReflexive(a: string)
    ensures CompareSemver(a, a) == 0
  {
    if a != [] {
      CompareZeroIff(Components(a), Components(a));
    }
  }

  /** "Newer than" is transitive (for any three strings, empty ones included). */
  lemma CompareSemverTransitive(a: string, b: string, c: string)
    requires CompareSemver(a, b) == 1 && CompareSemver(b, c) == 1
    ensures CompareSemver(a, c) == 1
  {
    var pa, pb, pc := Components(a), Components(b), Components(c);
    CompareOneIff(pa, pb);
    CompareOneIff(pb, pc);
    CompareOneIff(pa, pc);
    var k1: nat :| AgreeBelow(pa, pb, k1) && At(pa, k1) > At(pb, k1);
    var k2: nat :| AgreeBelow(pb, pc, k2) && At(pb, k2) > At(pc, k2);
    var k := if k1 <= k2 then k1 else k2;
    assert AgreeBelow(pa, pc, k);
    assert At(pa, k) > At(pc, k);
  }

  /** "Same version" is not transitive: the empty-string guard makes "" equal
      to every version. */
  lemma SameVersionNotTransitive()
    ensures CompareSemver("2", "") == 0 && CompareSemver("", "1") == 0
    ensures CompareSemver("2", "1") == 1
  {
    ComponentOfDigits("1");
    ComponentOfDigits("2");
    SplitNoSeparator("1", '.');
    SplitNoSeparator("2", '.');
  }

  // ---------------------------------------------------------------------------
  // Components of well-formed versions
  // ---------------------------------------------------------------------------

  /** A piece made of decimal digits is read as its value. */
  lemma ComponentOfDigits(ds: string)
    requires ds != [] && AllDigits(ds, Decimal)
    ensures Component(ds) == DigitsValue(ds, Decimal)
  {
    ParseIntOfDigits(ds, [], Decimal);
    assert ds + [] == ds;
  }

  /** Appending ".0" adds one zero component. */
  lemma ComponentsWithZero(a: string)
    ensures Components(a + ".0") == Components(a) + [0]
  {
    assert a + ".0" == a + ['.'] + "0";
    SplitAtSeparator(a, "0", '.');
    SplitNoSeparator("0", '.');
    ComponentOfDigits("0");
  }

  /** Trailing zero components make no difference: "1.2" and "1.2.0" compare
      equal. */
  lemma TrailingZeroIgnored(a: string)
    requires a != []
    ensures CompareSemver(a, a + ".0") == 0
  {
    var pa := Components(a);
    ComponentsWithZero(a);
    CompareZeroIff(pa, pa + [0]);
    assert forall i: nat :: At(pa, i) == At(pa + [0], i);
  }

  /** A two-part version has the two pieces' values as its components. */
  lemma ComponentsOfPair(x: string, y: string)
    requires '.' !in x && '.' !in y
    ensures Components(x + ['.'] + y) == [Component(x), Component(y)]
  {
    SplitAtSeparator(x, y, '.');
    SplitNoSeparator(x, '.');
    SplitNoSeparator(y, '.');
  }

  lemma SmallComponents()
    ensures Component("1") == 1 && Component("9") == 9 && Component("10") == 10
  {
    ComponentOfDigits("1");
    ComponentOfDigits("9");
    ComponentOfDigits("10");
    assert "10"[..1] == "1";
  }

  lemma TwoPartVersions()
    ensures Components("1.10") == [1, 10] && Components("1.9") == [1, 9]
  {
    assert "1.10" == "1" + ['.'] + "10";
    assert "1.9" == "1" + ['.'] + "9";
    ComponentsOfPair("1", "10");
    ComponentsOfPair("1", "9");
    SmallComponents();
  }

  /** Components compare as numbers, not as text: "1.10" is newer than "1.9". */
  lemma NumericNotTextual()
    ensures CompareSemver("1.10", "1.9") == 1
  {
    TwoPartVersions();
    assert CompareFrom([1, 10], [1, 9], 1, 2) == 1;
  }

  // ---------------------------------------------------------------------------
  // The update offer
  // ---------------------------------------------------------------------------

  /** The version the page was built as, when the host page does not set one. */
  const AppVersion := "1.1.5"

  /** `checkRemoteVersion`'s decision once the fetched JSON is parsed: the
      `version` field (absent, empty or present) is offered as an update
      only when it compares newer than the running version. */
  function ShouldOfferUpdate(remote: Option<string>, current: string): (offer: bool)
    ensures offer ==> remote.Some? && remote.value != [] && current != []
    ensures offer <==> remote.Some? && CompareSemver(remote.value, current) == 1
  {
    match remote
    case None => false
    case Some(v) => v != [] && CompareSemver(v, current) > 0
  }

  /** The running version is never offered to itself, and an offered version
      is never offered back once it is running. */
  lemma OfferIsStrict(v: string, current: string)
    ensures !ShouldOfferUpdate(Some(current), current)
    ensures ShouldOfferUpdate(Some(v), current) ==> !ShouldOfferUpdate(Some(current), v)
  {
    CompareSemverReflexive(current);
    CompareSemverAntisymmetric(v, current);
  }

  /** The running version is never offered to itself, nor is the same
      version written with a trailing `.0`. */
  lemma RunningVersionNotOffered()
    ensures !ShouldOfferUpdate(Some(AppVersion), AppVersion)
    ensures !ShouldOfferUpdate(Some(AppVersion + ".0"), AppVersion)
  {
    OfferIsStrict(AppVersion, AppVersion);
    TrailingZeroIgnored(AppVersion);
    CompareSemverAntisymmetric(AppVersion + ".0", AppVersion);
  }
}
