/**
 * User-based collaborative filtering over the user-item matrix: cosine
 * similarity restricted to the items two users share, and the ranking of
 * the items a user does not have yet by similarity-weighted play counts.
 */
module CollaborativeFiltering {
  import opened Wrappers
  import opened JsObject
  import opened UserItemMatrix
  import opened Arithmetic

  // ---------------------------------------------------------------------
  // Similarity
  // ---------------------------------------------------------------------

  /**
   * `Math.sqrt` is passed in by the caller. The properties below need only
   * that it is a non-negative square root on the non-negative reals
   * (`sqrt(0) == 0` follows from that; it is listed because the solver
   * does not derive it).
   */
  ghost predicate IsSqrt(sqrt: real -> real) {
    && sqrt(0.0) == 0.0
    && forall x :: 0.0 <= x ==> 0.0 <= sqrt(x) && sqrt(x) * sqrt(x) == x
  }

  /** The keys `ks` (of the first user) that the other user also has, in the order of `ks`. */
  function CommonItems(ks: seq<TrackId>, other: Row): (common: seq<TrackId>)
    ensures forall t :: t in common <==> t in ks && other.Has(t)
    ensures Distinct(ks) ==> Distinct(common)
  {
    if ks == [] then []
    else
      var rest := CommonItems(ks[..|ks| - 1], other);
      var last := ks[|ks| - 1];
      assert ks == ks[..|ks| - 1] + [last];
      assert Distinct(ks) ==> Distinct(ks[..|ks| - 1]) && last !in ks[..|ks| - 1];
      if other.Has(last) then rest + [last] else rest
  }

  /**
   * The products `a[t] * b[t]` summed over `ks`, from left to right as
   * `reduce` adds them. A row against itself gives a sum of squares, which
   * is never negative.
   */
  function Dot(ks: seq<TrackId>, a: Row, b: Row): (d: int)
    ensures a == b ==> 0 <= d
  {
    if ks == [] then 0
    else Dot(ks[..|ks| - 1], a, b) + a.GetOr(ks[|ks| - 1], 0) * b.GetOr(ks[|ks| - 1], 0)
  }

  /**
   * `dotProduct / (user1Magnitude * user2Magnitude)`, the magnitudes being
   * the square roots of the two sums of squares, with 0 in place of a
   * division by zero. When the dot product and the sums of squares satisfy
   * the Cauchy-Schwarz inequality the result lies in [-1, 1].
   */
  function Cosine(dotProduct: int, squares1: int, squares2: int, sqrt: real -> real): (c: real)
    ensures IsSqrt(sqrt) && 0 <= squares1 && 0 <= squares2 && dotProduct * dotProduct <= squares1 * squares2 ==>
      -1.0 <= c <= 1.0
  {
    var magnitudes := sqrt(squares1 as real) * sqrt(squares2 as real);
    if magnitudes == 0.0 then 0.0
    else
      QuotientBounded(dotProduct, squares1, squares2, sqrt);
      dotProduct as real / magnitudes
  }

  /** The Cauchy-Schwarz inequality for the play counts of two rows over the items `ks`. */
  lemma {:induction false} DotCauchySchwarz(ks: seq<TrackId>, a: Row, b: Row)
    ensures Dot(ks, a, b) * Dot(ks, a, b) <= Dot(ks, a, a) * Dot(ks, b, b)
  {
    if ks != [] {
      var init, last := ks[..|ks| - 1], ks[|ks| - 1];
      DotCauchySchwarz(init, a, b);
      DotSelf(init, a);
      DotSelf(init, b);
      CauchySchwarzStep(Dot(init, a, b), Dot(init, a, a), Dot(init, b, b), a.GetOr(last, 0), b.GetOr(last, 0));
    }
  }

  /** The division in Cosine, when it happens, lies in [-1, 1] under Cauchy-Schwarz. */
  lemma QuotientBounded(d: int, s1: int, s2: int, sqrt: real -> real)
    ensures var m := sqrt(s1 as real) * sqrt(s2 as real);
      IsSqrt(sqrt) && 0 <= s1 && 0 <= s2 && d * d <= s1 * s2 && m != 0.0 ==> -1.0 <= (d as real) / m <= 1.0
  {
    var m1, m2 := sqrt(s1 as real), sqrt(s2 as real);
    if IsSqrt(sqrt) && 0 <= s1 && 0 <= s2 && d * d <= s1 * s2 && m1 * m2 != 0.0 {
      CosineRange(d, s1, s2, m1, m2);
    }
  }


  /**
   * `calculateSimilarity`: cosine similarity of two rows restricted to the
   * items both have. It is 0 when they share nothing, and 0 when a
   * magnitude over the shared items is 0, where the code as written divides
   * by zero (see CalculateSimilarityAsWritten).
   */
  function CalculateSimilarity(user1: Row, user2: Row, sqrt: real -> real): (s: real)
    ensures (forall t :: t in user1.keys ==> !user2.Has(t)) ==> s == 0.0
  {
    var commonItems := CommonItems(user1.keys, user2);
    if |commonItems| == 0 then 0.0
    else Cosine(Dot(commonItems, user1, user2), Dot(commonItems, user1, user1), Dot(commonItems, user2, user2), sqrt)
  }

  /**
   * `calculateSimilarity` as written: `dotProduct / (m1 * m2)` with no guard.
   * `None` stands for the NaN that the division gives when a magnitude is 0.
   */
  function CalculateSimilarityAsWritten(user1: Row, user2: Row, sqrt: real -> real): (s: Option<real>)
    ensures s.Some? ==> s.value == CalculateSimilarity(user1, user2, sqrt)
  {
    var commonItems := CommonItems(user1.keys, user2);
    if |commonItems| == 0 then Some(0.0)
    else
      var magnitudes := sqrt(Dot(commonItems, user1, user1) as real) * sqrt(Dot(commonItems, user2, user2) as real);
      if magnitudes == 0.0 then None
      else Some(Dot(commonItems, user1, user2) as real / magnitudes)
  }

  /** Two users who share one track, one of them with play count 0: the unguarded division is undefined (NaN). */
  lemma ZeroPlayCountMakesSimilarityNaN(sqrt: real -> real)
    requires IsSqrt(sqrt)
    ensures var a := Dict(["t"], map["t" := 0]);
            var b := Dict(["t"], map["t" := 5]);
            CalculateSimilarityAsWritten(a, b, sqrt) == None && CalculateSimilarity(a, b, sqrt) == 0.0
  {
    var a: Row := Dict(["t"], map["t" := 0]);
    var b: Row := Dict(["t"], map["t" := 5]);
    assert ["t"][..0] == [];
    assert CommonItems(a.keys, b) == ["t"];
    assert Dot(["t"], a, a) == 0;
    assert sqrt(Dot(["t"], a, a) as real) == 0.0;
  }

  /** Swapping the two rows does not change a dot product. */
  lemma {:induction false} DotCommutes(ks: seq<TrackId>, a: Row, b: Row)
    ensures Dot(ks, a, b) == Dot(ks, b, a)
  {
    if ks != [] {
      DotCommutes(ks[..|ks| - 1], a, b);
    }
  }

  /** Taking one item out of the sum. */
  lemma {:induction false} DotRemove(ks: seq<TrackId>, i: nat, a: Row, b: Row)
    requires i < |ks|
    ensures Dot(ks, a, b) == Dot(ks[..i] + ks[i + 1..], a, b) + a.GetOr(ks[i], 0) * b.GetOr(ks[i], 0)
  {
    var n := |ks|;
    if i == n - 1 {
      assert ks[..i] + ks[i + 1..] == ks[..n - 1];
    } else {
      var init := ks[..n - 1];
      DotRemove(init, i, a, b);
      var rest := ks[..i] + ks[i + 1..];
      assert init[..i] + init[i + 1..] == rest[..|rest| - 1];
      assert rest[|rest| - 1] == ks[n - 1];
    }
  }

  /** Removing the element at `i` removes one occurrence of it from the multiset. */
  lemma MultisetRemove<T>(xs: seq<T>, i: nat)
    requires i < |xs|
    ensures multiset(xs[..i] + xs[i + 1..]) == multiset(xs) - multiset{xs[i]}
  {
    assert xs == xs[..i] + [xs[i]] + xs[i + 1..];
  }

  /** Where the last element of `ys` sits in its permutation `xs`, and what is left of both without it. */
  lemma MatchLast<T>(xs: seq<T>, ys: seq<T>) returns (i: nat)
    requires multiset(xs) == multiset(ys) && ys != []
    ensures i < |xs| && xs[i] == ys[|ys| - 1]
    ensures multiset(xs[..i] + xs[i + 1..]) == multiset(ys[..|ys| - 1])
  {
    var n := |ys|;
    assert ys[n - 1] in multiset(xs);
    i :| 0 <= i < |xs| && xs[i] == ys[n - 1];
    MultisetRemove(xs, i);
    MultisetRemove(ys, n - 1);
    assert ys[..n - 1] + ys[n..] == ys[..n - 1];
  }

  /** A dot product depends only on the multiset of items summed over, not on their order. */
  lemma {:induction false} DotPermutation(xs: seq<TrackId>, ys: seq<TrackId>, a: Row, b: Row)
    requires multiset(xs) == multiset(ys)
    ensures Dot(xs, a, b) == Dot(ys, a, b)
  {
    if ys == [] {
      assert xs == [] by {
        assert |xs| == |multiset(xs)| == 0;
      }
    } else {
      var i := MatchLast(xs, ys);
      DotRemove(xs, i, a, b);
      DotPermutation(xs[..i] + xs[i + 1..], ys[..|ys| - 1], a, b);
    }
  }

  /** In a sequence without repeats every element occurs once. */
  lemma {:induction false} DistinctCount<T>(xs: seq<T>, x: T)
    requires Distinct(xs)
    ensures multiset(xs)[x] == if x in xs then 1 else 0
  {
    if xs != [] {
      var n := |xs|;
      assert xs == xs[..n - 1] + [xs[n - 1]];
      DistinctCount(xs[..n - 1], x);
    }
  }

  /** Two sequences without repeats and with the same elements are permutations of each other. */
  lemma DistinctSameElements<T>(xs: seq<T>, ys: seq<T>)
    requires Distinct(xs) && Distinct(ys)
    requires forall x :: x in xs <==> x in ys
    ensures multiset(xs) == multiset(ys)
  {
    forall x ensures multiset(xs)[x] == multiset(ys)[x] {
      DistinctCount(xs, x);
      DistinctCount(ys, x);
    }
  }

  /** A permutation of a sequence without repeats has no repeats. */
  lemma PermutationKeepsDistinct<T>(xs: seq<T>, ys: seq<T>)
    requires Distinct(xs) && multiset(xs) == multiset(ys)
    ensures Distinct(ys)
  {
    forall i, j | 0 <= i < j < |ys| ensures ys[i] != ys[j] {
      if ys[i] == ys[j] {
        var x := ys[i];
        assert ys == ys[..j] + ys[j..];
        assert x in multiset(ys[..j]) && x in multiset(ys[j..]);
        DistinctCount(xs, x);
        assert false;
      }
    }
  }

  /** A sequence without repeats has as many elements as the set of its elements. */
  lemma {:induction false} DistinctCardinality<T>(xs: seq<T>, s: set<T>)
    requires Distinct(xs)
    requires forall x :: x in s <==> x in xs
    ensures |s| == |xs|
  {
    if xs != [] {
      var n := |xs|;
      var last := xs[n - 1];
      assert xs == xs[..n - 1] + [last];
      assert forall x :: x in s - {last} <==> x in xs[..n - 1];
      DistinctCardinality(xs[..n - 1], s - {last});
    } else {
      assert s == {};
    }
  }

  /** `calculateSimilarity(a, b) == calculateSimilarity(b, a)`. */
  lemma SimilaritySymmetric(a: Row, b: Row, sqrt: real -> real)
    requires a.Valid() && b.Valid()
    ensures CalculateSimilarity(a, b, sqrt) == CalculateSimilarity(b, a, sqrt)
  {
    var ab := CommonItems(a.keys, b);
    var ba := CommonItems(b.keys, a);
    DistinctSameElements(ab, ba);
    assert |ab| == |multiset(ab)| == |multiset(ba)| == |ba|;
    DotPermutation(ab, ba, a, b);
    DotCommutes(ba, a, b);
    DotPermutation(ab, ba, a, a);
    DotPermutation(ab, ba, b, b);
  }

  /** Keys all present in the other row are all common. */
  lemma {:induction false} CommonItemsAll(ks: seq<TrackId>, other: Row)
    requires forall t :: t in ks ==> other.Has(t)
    ensures CommonItems(ks, other) == ks
  {
    if ks != [] {
      var n := |ks|;
      CommonItemsAll(ks[..n - 1], other);
      assert ks == ks[..n - 1] + [ks[n - 1]];
    }
  }

  /** A sum of squares is non-negative, and positive when some term is non-zero. */
  lemma {:induction false} DotSelf(ks: seq<TrackId>, a: Row)
    ensures 0 <= Dot(ks, a, a)
    ensures (exists t :: t in ks && a.GetOr(t, 0) != 0) ==> 0 < Dot(ks, a, a)
  {
    if ks != [] {
      var n := |ks|;
      var last := ks[n - 1];
      DotSelf(ks[..n - 1], a);
      assert ks == ks[..n - 1] + [last];
      var w := a.GetOr(last, 0);
      if w == 0 {
        assert forall t :: t in ks && a.GetOr(t, 0) != 0 ==> t in ks[..n - 1];
      } else {
        assert 0 < w * w;
      }
    }
  }

  /** A positive sum of squares against itself gives cosine 1. */
  lemma CosineSelf(n: int, sqrt: real -> real)
    requires IsSqrt(sqrt) && 0 < n
    ensures Cosine(n, n, n, sqrt) == 1.0
  {
    var m := sqrt(n as real);
    assert m * m == n as real;
    assert m * m != 0.0;
    assert n as real / (m * m) == 1.0;
  }

  /** A row with some non-zero play count has similarity 1 with itself. */
  lemma SelfSimilarity(a: Row, sqrt: real -> real)
    requires a.Valid() && IsSqrt(sqrt)
    requires exists t :: a.Has(t) && a.Get(t) != 0
    ensures CalculateSimilarity(a, a, sqrt) == 1.0
  {
    CommonItemsAll(a.keys, a);
    var t :| a.Has(t) && a.Get(t) != 0;
    assert t in a.keys && a.GetOr(t, 0) != 0;
    DotSelf(a.keys, a);
    CosineSelf(Dot(a.keys, a, a), sqrt);
  }

  /** Products of non-negative play counts sum to a non-negative number. */
  lemma {:induction false} DotNonNegative(ks: seq<TrackId>, a: Row, b: Row)
    requires forall t :: a.Has(t) ==> 0 <= a.Get(t)
    requires forall t :: b.Has(t) ==> 0 <= b.Get(t)
    ensures 0 <= Dot(ks, a, b)
  {
    if ks != [] {
      var last := ks[|ks| - 1];
      DotNonNegative(ks[..|ks| - 1], a, b);
      assert 0 <= a.GetOr(last, 0) * b.GetOr(last, 0);
    }
  }

  /** With non-negative play counts the similarity is non-negative. */
  lemma SimilarityNonNegative(a: Row, b: Row, sqrt: real -> real)
    requires IsSqrt(sqrt)
    requires forall t :: a.Has(t) ==> 0 <= a.Get(t)
    requires forall t :: b.Has(t) ==> 0 <= b.Get(t)
    ensures 0.0 <= CalculateSimilarity(a, b, sqrt)
  {
    var common := CommonItems(a.keys, b);
    DotNonNegative(common, a, b);
    DotSelf(common, a);
    DotSelf(common, b);
  }

  /** A similarity score lies in [-1, 1]; with non-negative play counts, in [0, 1] (see SimilarityNonNegative). */
  lemma SimilarityInRange(a: Row, b: Row, sqrt: real -> real)
    requires IsSqrt(sqrt)
    ensures -1.0 <= CalculateSimilarity(a, b, sqrt) <= 1.0
  {
    var common := CommonItems(a.keys, b);
    DotCauchySchwarz(common, a, b);
    DotSelf(common, a);
    DotSelf(common, b);
  }

  /** A dot product reads only the play counts of the items it sums over. */
  lemma {:induction false} DotFrame(ks: seq<TrackId>, a: Row, a': Row, b: Row)
    requires forall t :: t in ks ==> a.GetOr(t, 0) == a'.GetOr(t, 0)
    ensures Dot(ks, a, b) == Dot(ks, a', b)
    ensures Dot(ks, a, a) == Dot(ks, a', a')
  {
    if ks != [] {
      DotFrame(ks[..|ks| - 1], a, a', b);
    }
  }

  /**
   * Only shared items count: setting the first user's play count for an
   * item the second user does not have leaves the similarity unchanged.
   */
  lemma SimilarityIgnoresUnsharedItem(a: Row, b: Row, t: TrackId, w: int, sqrt: real -> real)
    requires a.Valid()
    requires !b.Has(t)
    ensures CalculateSimilarity(a.Set(t, w), b, sqrt) == CalculateSimilarity(a, b, sqrt)
  {
    var a' := a.Set(t, w);
    var common := CommonItems(a.keys, b);
    if !a.Has(t) {
      assert a'.keys == a.keys + [t];
      assert (a.keys + [t])[..|a.keys|] == a.keys;
    }
    assert CommonItems(a'.keys, b) == common;
    DotFrame(common, a, a', b);
  }

  // ---------------------------------------------------------------------
  // Recommendations
  // ---------------------------------------------------------------------

  /** How many items a recommendation list keeps (`.slice(0, 10)`). */
  const MaxRecommendations: nat := 10

  function Min(a: int, b: int): int {
    if a <= b then a else b
  }

  /** The users of `us` other than `userId`, in order. */
  function OtherUsers(us: seq<UserId>, userId: UserId): (others: seq<UserId>)
    ensures forall u :: u in others <==> u in us && u != userId
    ensures Distinct(us) ==> Distinct(others)
  {
    if us == [] then []
    else
      var rest := OtherUsers(us[..|us| - 1], userId);
      var last := us[|us| - 1];
      assert us == us[..|us| - 1] + [last];
      assert Distinct(us) ==> Distinct(us[..|us| - 1]) && last !in us[..|us| - 1];
      if last != userId then rest + [last] else rest
  }

  /** `similarity * otherUser[item]`: a play count weighted by a similarity. */
  function Weighted(similarity: real, playCount: int): real {
    similarity * playCount as real
  }

  /** What user `u` adds to the score of `item`: similarity times play count, if `u` has the item. */
  function Contribution(matrix: Matrix, targetUser: Row, u: UserId, item: TrackId, sqrt: real -> real): real {
    if matrix.Has(u) && matrix.Get(u).Has(item)
    then Weighted(CalculateSimilarity(targetUser, matrix.Get(u), sqrt), matrix.Get(u).Get(item))
    else 0.0
  }

  /** The contributions of the users `us` to the score of `item`, added in order. */
  function ScoreOver(us: seq<UserId>, matrix: Matrix, targetUser: Row, item: TrackId, sqrt: real -> real): real {
    if us == [] then 0.0
    else ScoreOver(us[..|us| - 1], matrix, targetUser, item, sqrt) + Contribution(matrix, targetUser, us[|us| - 1], item, sqrt)
  }

  /**
   * The score of `item` for `userId`: over every other user of the matrix
   * who has the item, their similarity with the target times their play count.
   */
  function Score(matrix: Matrix, userId: UserId, item: TrackId, sqrt: real -> real): real
    requires matrix.Has(userId)
  {
    ScoreOver(OtherUsers(matrix.keys, userId), matrix, matrix.Get(userId), item, sqrt)
  }

  /** The candidate items: held by some other user, not held by the target. */
  function Candidates(matrix: Matrix, userId: UserId): set<TrackId>
    requires matrix.Has(userId)
  {
    set u, t | u in matrix.entries && u != userId && t in matrix.entries[u].entries
                && t !in matrix.Get(userId).entries :: t
  }

  /** Users none of whom has `item` contribute nothing to its score. */
  lemma {:induction false} ScoreOverNoHolder(us: seq<UserId>, matrix: Matrix, targetUser: Row, item: TrackId, sqrt: real -> real)
    requires forall u :: u in us && matrix.Has(u) ==> !matrix.Get(u).Has(item)
    ensures ScoreOver(us, matrix, targetUser, item, sqrt) == 0.0
  {
    if us != [] {
      var n := |us|;
      assert us == us[..n - 1] + [us[n - 1]];
      ScoreOverNoHolder(us[..n - 1], matrix, targetUser, item, sqrt);
    }
  }

  /** Lines 27-34: the similarity of the target with each other user, keyed in matrix order. */
  method ComputeSimilarities(matrix: Matrix, userId: UserId, targetUser: Row, sqrt: real -> real)
    returns (similarities: Dict<UserId, real>)
    requires matrix.Valid()
    ensures similarities.Valid()
    ensures similarities.keys == OtherUsers(matrix.keys, userId)
    ensures forall u :: similarities.Has(u) ==>
      matrix.Has(u) && similarities.Get(u) == CalculateSimilarity(targetUser, matrix.Get(u), sqrt)
  {
    similarities := Empty();
    var i := 0;
    while i < |matrix.keys|
      invariant 0 <= i <= |matrix.keys|
      invariant similarities.Valid()
      invariant similarities.keys == OtherUsers(matrix.keys[..i], userId)
      invariant forall u :: similarities.Has(u) ==>
        matrix.Has(u) && similarities.Get(u) == CalculateSimilarity(targetUser, matrix.Get(u), sqrt)
    {
      var otherUserId := matrix.keys[i];
      assert matrix.keys[..i + 1] == matrix.keys[..i] + [otherUserId];
      if otherUserId != userId {
        var similarity := CalculateSimilarity(targetUser, matrix.Get(otherUserId), sqrt);
        similarities := similarities.Set(otherUserId, similarity);
      }
      i := i + 1;
    }
    assert matrix.keys[..i] == matrix.keys;
  }

  /**
   * Lines 44-47: start a missing (or zero) score at 0, then add `amount` to
   * it. Every other score is left as it was.
   */
  method AddToScore(recommendations: Dict<TrackId, real>, item: TrackId, amount: real)
    returns (updated: Dict<TrackId, real>)
    requires recommendations.Valid()
    ensures updated.Valid()
    ensures forall t :: updated.Has(t) <==> recommendations.Has(t) || t == item
    ensures updated.Get(item) == recommendations.GetOr(item, 0.0) + amount
    ensures forall t :: t != item && updated.Has(t) ==> updated.Get(t) == recommendations.Get(t)
  {
    updated := recommendations;
    if !updated.Has(item) || updated.Get(item) == 0.0 {
      updated := updated.Set(item, 0.0);
    }
    updated := updated.Set(item, updated.Get(item) + amount);
  }

  /**
   * Lines 41-48: add one other user's items that the target does not have
   * into the scores, each weighted by that user's similarity.
   */
  method AddContributions(recommendations: Dict<TrackId, real>, targetUser: Row, otherUser: Row, similarity: real)
    returns (updated: Dict<TrackId, real>)
    requires recommendations.Valid() && otherUser.Valid()
    ensures updated.Valid()
    ensures forall t :: updated.Has(t) <==> recommendations.Has(t) || (otherUser.Has(t) && !targetUser.Has(t))
    ensures forall t :: updated.Has(t) ==>
      updated.Get(t) == recommendations.GetOr(t, 0.0) +
        (if otherUser.Has(t) && !targetUser.Has(t) then Weighted(similarity, otherUser.Get(t)) else 0.0)
  {
    updated := recommendations;
    var j := 0;
    while j < |otherUser.keys|
      invariant 0 <= j <= |otherUser.keys|
      invariant updated.Valid()
      invariant AddedFor(otherUser.keys[..j], recommendations, updated, targetUser, otherUser, similarity)
    {
      var item := otherUser.keys[j];
      var before := updated;
      if !targetUser.Has(item) {
        updated := AddToScore(updated, item, Weighted(similarity, otherUser.Get(item)));
      }
      AddedForOneMore(otherUser.keys, j, recommendations, before, updated, targetUser, otherUser, similarity);
      j := j + 1;
    }
    assert otherUser.keys[..j] == otherUser.keys;
  }

  /**
   * `updated` is `recommendations` with the contributions of the items
   * `seen` of the other user added, those the target does not have.
   */
  ghost predicate AddedFor(seen: seq<TrackId>, recommendations: Dict<TrackId, real>, updated: Dict<TrackId, real>,
                           targetUser: Row, otherUser: Row, similarity: real)
  {
    && (forall t :: updated.Has(t) <==> recommendations.Has(t) || (t in seen && !targetUser.Has(t)))
    && (forall t :: updated.Has(t) ==>
         updated.Get(t) == recommendations.GetOr(t, 0.0) +
           (if t in seen && !targetUser.Has(t) then Weighted(similarity, otherUser.GetOr(t, 0)) else 0.0))
  }

  /** One iteration of the loop in AddContributions extends AddedFor from `ks[..j]` to `ks[..j + 1]`. */
  lemma AddedForOneMore(ks: seq<TrackId>, j: nat, recommendations: Dict<TrackId, real>,
                        before: Dict<TrackId, real>, after: Dict<TrackId, real>,
                        targetUser: Row, otherUser: Row, similarity: real)
    requires j < |ks| && Distinct(ks)
    requires AddedFor(ks[..j], recommendations, before, targetUser, otherUser, similarity)
    requires targetUser.Has(ks[j]) ==> after == before
    requires !targetUser.Has(ks[j]) ==>
      && (forall t :: after.Has(t) <==> before.Has(t) || t == ks[j])
      && after.Get(ks[j]) == before.GetOr(ks[j], 0.0) + Weighted(similarity, otherUser.GetOr(ks[j], 0))
      && (forall t :: t != ks[j] && after.Has(t) ==> after.Get(t) == before.Get(t))
    ensures AddedFor(ks[..j + 1], recommendations, after, targetUser, otherUser, similarity)
  {
    assert ks[..j + 1] == ks[..j] + [ks[j]];
    assert ks[j] !in ks[..j];
  }

  /** `item` is held by one of the users `us`. */
  ghost predicate HeldByOneOf(us: seq<UserId>, matrix: Matrix, item: TrackId) {
    exists u :: u in us && matrix.Has(u) && matrix.Get(u).Has(item)
  }

  /**
   * Lines 36-49: the score of every item that some other user has and the
   * target does not.
   */
  method AccumulateScores(matrix: Matrix, targetUser: Row, similarities: Dict<UserId, real>, ghost sqrt: real -> real)
    returns (recommendations: Dict<TrackId, real>)
    requires WellFormed(matrix) && similarities.Valid()
    requires forall u :: similarities.Has(u) ==>
      matrix.Has(u) && similarities.Get(u) == CalculateSimilarity(targetUser, matrix.Get(u), sqrt)
    ensures recommendations.Valid()
    ensures forall t :: recommendations.Has(t) <==> !targetUser.Has(t) && HeldByOneOf(similarities.keys, matrix, t)
    ensures forall t :: recommendations.Has(t) ==>
      recommendations.Get(t) == ScoreOver(similarities.keys, matrix, targetUser, t, sqrt)
  {
    recommendations := Empty();
    var i := 0;
    while i < |similarities.keys|
      invariant 0 <= i <= |similarities.keys|
      invariant recommendations.Valid()
      invariant forall t :: recommendations.Has(t) <==>
        !targetUser.Has(t) && HeldByOneOf(similarities.keys[..i], matrix, t)
      invariant forall t :: recommendations.Has(t) ==>
        recommendations.Get(t) == ScoreOver(similarities.keys[..i], matrix, targetUser, t, sqrt)
    {
      var otherUserId := similarities.keys[i];
      var similarity := similarities.Get(otherUserId);
      var otherUser := matrix.Get(otherUserId);
      var before := recommendations;
      recommendations := AddContributions(recommendations, targetUser, otherUser, similarity);
      StepScores(similarities.keys, i, matrix, targetUser, sqrt, otherUser, similarity, before, recommendations);
      i := i + 1;
    }
    assert similarities.keys[..i] == similarities.keys;
  }

  /** One step of AccumulateScores: adding user `us[i]` extends both invariants from `us[..i]` to `us[..i + 1]`. */
  lemma StepScores(us: seq<UserId>, i: nat, matrix: Matrix, targetUser: Row, sqrt: real -> real,
                   otherUser: Row, similarity: real, before: Dict<TrackId, real>, after: Dict<TrackId, real>)
    requires i < |us| && matrix.Has(us[i]) && otherUser == matrix.Get(us[i])
    requires similarity == CalculateSimilarity(targetUser, otherUser, sqrt)
    requires forall t :: before.Has(t) <==> !targetUser.Has(t) && HeldByOneOf(us[..i], matrix, t)
    requires forall t :: before.Has(t) ==> before.Get(t) == ScoreOver(us[..i], matrix, targetUser, t, sqrt)
    requires forall t :: after.Has(t) <==> before.Has(t) || (otherUser.Has(t) && !targetUser.Has(t))
    requires forall t :: after.Has(t) ==>
      after.Get(t) == before.GetOr(t, 0.0) +
        (if otherUser.Has(t) && !targetUser.Has(t) then Weighted(similarity, otherUser.Get(t)) else 0.0)
    ensures forall t :: after.Has(t) <==> !targetUser.Has(t) && HeldByOneOf(us[..i + 1], matrix, t)
    ensures forall t :: after.Has(t) ==> after.Get(t) == ScoreOver(us[..i + 1], matrix, targetUser, t, sqrt)
  {
    HeldByOneMore(us, i, matrix);
    forall t | after.Has(t) ensures after.Get(t) == ScoreOver(us[..i + 1], matrix, targetUser, t, sqrt) {
      if !before.Has(t) {
        assert !HeldByOneOf(us[..i], matrix, t);
        ScoreOverNoHolder(us[..i], matrix, targetUser, t, sqrt);
      }
      StepScore(us, i, matrix, targetUser, sqrt, otherUser, similarity, t,
                before.GetOr(t, 0.0), after.Get(t));
    }
  }

  /** StepScores for one item whose score goes from `previous` to `updated`. */
  lemma StepScore(us: seq<UserId>, i: nat, matrix: Matrix, targetUser: Row, sqrt: real -> real,
                  otherUser: Row, similarity: real, t: TrackId, previous: real, updated: real)
    requires i < |us| && matrix.Has(us[i]) && otherUser == matrix.Get(us[i])
    requires similarity == CalculateSimilarity(targetUser, otherUser, sqrt)
    requires previous == ScoreOver(us[..i], matrix, targetUser, t, sqrt)
    requires updated == previous + (if otherUser.Has(t) && !targetUser.Has(t) then Weighted(similarity, otherUser.Get(t)) else 0.0)
    requires !targetUser.Has(t)
    ensures updated == ScoreOver(us[..i + 1], matrix, targetUser, t, sqrt)
  {
    ScoreOverOneMore(us, i, matrix, targetUser, t, sqrt);
  }

  /** Extending the users by `us[i]` adds that user's contribution to the score. */
  lemma ScoreOverOneMore(us: seq<UserId>, i: nat, matrix: Matrix, targetUser: Row, item: TrackId, sqrt: real -> real)
    requires i < |us|
    ensures ScoreOver(us[..i + 1], matrix, targetUser, item, sqrt)
      == ScoreOver(us[..i], matrix, targetUser, item, sqrt) + Contribution(matrix, targetUser, us[i], item, sqrt)
  {
    var prefix := us[..i + 1];
    assert prefix[..i] == us[..i] && prefix[i] == us[i];
  }

  /** An item is held by one of `us[..i + 1]` when one of `us[..i]` or `us[i]` holds it. */
  lemma HeldByOneMore(us: seq<UserId>, i: nat, matrix: Matrix)
    requires i < |us| && matrix.Has(us[i])
    ensures forall t :: HeldByOneOf(us[..i + 1], matrix, t) <==>
      HeldByOneOf(us[..i], matrix, t) || matrix.Get(us[i]).Has(t)
  {
    var prefix := us[..i + 1];
    assert prefix == us[..i] + [us[i]];
    forall t ensures HeldByOneOf(prefix, matrix, t) <==> HeldByOneOf(us[..i], matrix, t) || matrix.Get(us[i]).Has(t) {
      if HeldByOneOf(prefix, matrix, t) {
        var u :| u in prefix && matrix.Has(u) && matrix.Get(u).Has(t);
        assert u in us[..i] || u == us[i];
      }
      if HeldByOneOf(us[..i], matrix, t) {
        var u :| u in us[..i] && matrix.Has(u) && matrix.Get(u).Has(t);
        assert u in prefix;
      }
      if matrix.Get(us[i]).Has(t) {
        assert us[i] in prefix;
      }
    }
  }

  // ---------------------------------------------------------------------
  // Ranking
  // ---------------------------------------------------------------------

  /** Items in order of non-increasing score. */
  ghost predicate Descending(items: seq<TrackId>, scores: Dict<TrackId, real>) {
    forall i, j :: 0 <= i < j < |items| ==> scores.GetOr(items[i], 0.0) >= scores.GetOr(items[j], 0.0)
  }

  /** Putting an item that scores at least as high as all of a descending list in front keeps it descending. */
  lemma DescendingCons(x: TrackId, rest: seq<TrackId>, scores: Dict<TrackId, real>)
    requires Descending(rest, scores)
    requires forall y :: y in rest ==> scores.GetOr(x, 0.0) >= scores.GetOr(y, 0.0)
    ensures Descending([x] + rest, scores)
  {
    var r := [x] + rest;
    forall i, j | 0 <= i < j < |r| ensures scores.GetOr(r[i], 0.0) >= scores.GetOr(r[j], 0.0) {
      if i == 0 {
        assert r[j] == rest[j - 1] && r[j] in rest;
      } else {
        assert r[i] == rest[i - 1] && r[j] == rest[j - 1];
      }
    }
  }

  /** Inserting one item into a list sorted by descending score, before the first item it is not below. */
  function InsertByScore(item: TrackId, sorted: seq<TrackId>, scores: Dict<TrackId, real>): (r: seq<TrackId>)
    requires Descending(sorted, scores)
    ensures multiset(r) == multiset(sorted) + multiset{item}
    ensures Descending(r, scores)
  {
    if sorted == [] || scores.GetOr(item, 0.0) >= scores.GetOr(sorted[0], 0.0) then
      DescendingCons(item, sorted, scores);
      [item] + sorted
    else
      var head := sorted[0];
      var rest := InsertByScore(item, sorted[1..], scores);
      assert sorted == [head] + sorted[1..];
      InsertedBelowHead(item, sorted, rest, scores);
      [head] + rest
  }

  /** Everything in the list that the item was inserted into scores no higher than the old head. */
  lemma InsertedBelowHead(item: TrackId, sorted: seq<TrackId>, rest: seq<TrackId>, scores: Dict<TrackId, real>)
    requires sorted != [] && Descending(sorted, scores)
    requires scores.GetOr(item, 0.0) < scores.GetOr(sorted[0], 0.0)
    requires multiset(rest) == multiset(sorted[1..]) + multiset{item}
    requires Descending(rest, scores)
    ensures Descending([sorted[0]] + rest, scores)
  {
    forall y | y in rest ensures scores.GetOr(sorted[0], 0.0) >= scores.GetOr(y, 0.0) {
      assert y in multiset(rest);
      if y != item {
        assert y in multiset(sorted[1..]);
        var k :| 0 <= k < |sorted[1..]| && sorted[1..][k] == y;
        assert sorted[k + 1] == y;
      }
    }
    DescendingCons(sorted[0], rest, scores);
  }

  /**
   * `keys.sort((a, b) => scores[b] - scores[a])`: a permutation of `keys`
   * in order of non-increasing score. The order among equal scores is the
   * library's choice and is not modelled.
   */
  function SortByScore(keys: seq<TrackId>, scores: Dict<TrackId, real>): (sorted: seq<TrackId>)
    ensures multiset(sorted) == multiset(keys)
    ensures Descending(sorted, scores)
  {
    if keys == [] then []
    else
      assert keys == [keys[0]] + keys[1..];
      InsertByScore(keys[0], SortByScore(keys[1..], scores), scores)
  }

  /**
   * Lines 51-53: the keys of the score table sorted by descending score, cut
   * to the first ten. Every key left out scores no higher than any key kept.
   */
  function TopRecommendations(scores: Dict<TrackId, real>): (top: seq<TrackId>)
    requires scores.Valid()
    ensures |top| == Min(MaxRecommendations, |scores.keys|)
    ensures Distinct(top)
    ensures forall t :: t in top ==> scores.Has(t)
    ensures Descending(top, scores)
    ensures forall t, i :: scores.Has(t) && t !in top && 0 <= i < |top| ==>
      scores.GetOr(t, 0.0) <= scores.GetOr(top[i], 0.0)
  {
    var sorted := SortByScore(scores.keys, scores);
    PermutationKeepsDistinct(scores.keys, sorted);
    TopPrefix(sorted, scores);
    sorted[..Min(MaxRecommendations, |sorted|)]
  }

  /** A prefix of a descending list dominates everything after it. */
  lemma TopPrefix(sorted: seq<TrackId>, scores: Dict<TrackId, real>)
    requires Descending(sorted, scores) && Distinct(sorted)
    requires multiset(sorted) == multiset(scores.keys) && scores.Valid()
    ensures var top := sorted[..Min(MaxRecommendations, |sorted|)];
      forall t, i :: scores.Has(t) && t !in top && 0 <= i < |top| ==>
        scores.GetOr(t, 0.0) <= scores.GetOr(top[i], 0.0)
    ensures forall t :: t in sorted ==> scores.Has(t)
  {
    var top := sorted[..Min(MaxRecommendations, |sorted|)];
    forall t | t in sorted ensures scores.Has(t) {
      assert t in multiset(scores.keys);
    }
    forall t, i | scores.Has(t) && t !in top && 0 <= i < |top|
      ensures scores.GetOr(t, 0.0) <= scores.GetOr(top[i], 0.0)
    {
      assert t in multiset(scores.keys);
      var k :| 0 <= k < |sorted| && sorted[k] == t;
      assert top[i] == sorted[i];
    }
  }

  /**
   * `getRecommendations(userId)` over an already built matrix: up to ten
   * items the user does not have, held by other users, ranked by score.
   * An unknown user gets an empty list.
   */
  method GetRecommendations(matrix: Matrix, userId: UserId, sqrt: real -> real) returns (result: seq<TrackId>)
    requires WellFormed(matrix)
    ensures !matrix.Has(userId) ==> result == []
    ensures |result| <= MaxRecommendations
    ensures Distinct(result)
    ensures forall t :: t in result ==> matrix.Has(userId) && !matrix.Get(userId).Has(t)
    ensures matrix.Has(userId) ==> forall t :: t in result ==> t in Candidates(matrix, userId)
    ensures matrix.Has(userId) ==> |result| == Min(MaxRecommendations, |Candidates(matrix, userId)|)
    ensures matrix.Has(userId) ==> forall i, j :: 0 <= i < j < |result| ==>
      Score(matrix, userId, result[i], sqrt) >= Score(matrix, userId, result[j], sqrt)
    ensures matrix.Has(userId) ==> forall t, i :: t in Candidates(matrix, userId) && t !in result && 0 <= i < |result| ==>
      Score(matrix, userId, t, sqrt) <= Score(matrix, userId, result[i], sqrt)
  {
    if !matrix.Has(userId) {
      return [];
    }
    var targetUser := matrix.Get(userId);
    var similarities := ComputeSimilarities(matrix, userId, targetUser, sqrt);
    var recommendations := AccumulateScores(matrix, targetUser, similarities, sqrt);
    result := TopRecommendations(recommendations);
    CandidatesAreScored(matrix, userId, similarities.keys, recommendations);
    DistinctCardinality(recommendations.keys, Candidates(matrix, userId));
    RankedByScore(matrix, userId, sqrt, recommendations, result);
  }

  /**
   * `getRecommendations(userId)` as a whole: build the matrix from the
   * stored users and records, then rank. Every recommended track is one
   * that another user has a record of and the target user has none of.
   */
  method GetRecommendationsFromStore(users: seq<UserId>, records: seq<UserTrack>, userId: UserId, sqrt: real -> real)
    returns (result: seq<TrackId>)
    ensures userId !in users ==> result == []
    ensures |result| <= MaxRecommendations && Distinct(result)
    ensures forall t :: t in result ==>
      && (exists x :: x in records && x.userId != userId && x.userId in users && x.trackId == t)
      && !(exists x :: x in records && x.userId == userId && x.trackId == t)
  {
    var matrix := BuildUserItemMatrix(users, records);
    result := GetRecommendations(matrix, userId, sqrt);
    forall t | t in result
      ensures exists x :: x in records && x.userId != userId && x.userId in users && x.trackId == t
    {
      var u, t' :| u in matrix.entries && u != userId && t' in matrix.entries[u].entries
                   && t' !in matrix.Get(userId).entries && t' == t;
      assert matrix.Get(u).Has(t);
    }
  }

  /** The order and the cut made on the score table carry over to Score. */
  lemma RankedByScore(matrix: Matrix, userId: UserId, sqrt: real -> real, recommendations: Dict<TrackId, real>,
                      result: seq<TrackId>)
    requires matrix.Has(userId)
    requires forall t :: t in Candidates(matrix, userId) <==> recommendations.Has(t)
    requires forall t :: recommendations.Has(t) ==>
      recommendations.Get(t) == ScoreOver(OtherUsers(matrix.keys, userId), matrix, matrix.Get(userId), t, sqrt)
    requires forall t :: t in result ==> recommendations.Has(t)
    requires Descending(result, recommendations)
    requires forall t, i :: recommendations.Has(t) && t !in result && 0 <= i < |result| ==>
      recommendations.GetOr(t, 0.0) <= recommendations.GetOr(result[i], 0.0)
    ensures forall i, j :: 0 <= i < j < |result| ==>
      Score(matrix, userId, result[i], sqrt) >= Score(matrix, userId, result[j], sqrt)
    ensures forall t, i :: t in Candidates(matrix, userId) && t !in result && 0 <= i < |result| ==>
      Score(matrix, userId, t, sqrt) <= Score(matrix, userId, result[i], sqrt)
  {
    forall i, j | 0 <= i < j < |result|
      ensures Score(matrix, userId, result[i], sqrt) >= Score(matrix, userId, result[j], sqrt)
    {
      assert recommendations.GetOr(result[i], 0.0) >= recommendations.GetOr(result[j], 0.0);
    }
    forall t, i | t in Candidates(matrix, userId) && t !in result && 0 <= i < |result|
      ensures Score(matrix, userId, t, sqrt) <= Score(matrix, userId, result[i], sqrt)
    {
      assert recommendations.GetOr(t, 0.0) <= recommendations.GetOr(result[i], 0.0);
    }
  }

  /** The keys of the accumulated score table are exactly the candidates. */
  lemma CandidatesAreScored(matrix: Matrix, userId: UserId, others: seq<UserId>, recommendations: Dict<TrackId, real>)
    requires WellFormed(matrix) && matrix.Has(userId) && recommendations.Valid()
    requires others == OtherUsers(matrix.keys, userId)
    requires forall t :: recommendations.Has(t) <==> !matrix.Get(userId).Has(t) && HeldByOneOf(others, matrix, t)
    ensures forall t :: t in Candidates(matrix, userId) <==> t in recommendations.keys
  {
    forall t ensures t in Candidates(matrix, userId) <==> recommendations.Has(t) {
      if t in Candidates(matrix, userId) {
        var u :| u in matrix.entries && u != userId && t in matrix.entries[u].entries
                 && t !in matrix.Get(userId).entries;
        assert u in others;
      }
      if recommendations.Has(t) {
        var u :| u in others && matrix.Has(u) && matrix.Get(u).Has(t);
      }
    }
  }
}
