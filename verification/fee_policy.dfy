/**
 * The effective fee-policy lookup (`FeePolicyPersistenceAdapter.findEffectivePolicy`):
 * the repository query
 * `findTop1ByPartnerIdAndEffectiveFromLessThanEqualOrderByEffectiveFromDesc`
 * over the stored policy rows, then the row mapped into the domain `FeePolicy`.
 *
 * The table is a sequence of rows. When two eligible rows of the partner
 * share the greatest `effectiveFrom`, `Top1` may return either; the model
 * returns the first of them, and `EffectivePolicyUnique` shows that the choice
 * is forced once `effectiveFrom` is distinct per partner.
 * Instants are epoch milliseconds; the conversion to a UTC `LocalDateTime` keeps them.
 */
module FeePolicies {
  import opened Wrappers
  import opened JavaNumbers

  /** A stored row of the fee-policy table. */
  datatype FeePolicyEntity = FeePolicyEntity(
    id: Long,
    partnerId: Long,
    effectiveFrom: Long,
    percentage: Decimal,
    fixedFee: Decimal)

  /** The domain `FeePolicy`. */
  datatype FeePolicy = FeePolicy(
    id: Long,
    partnerId: Long,
    effectiveFrom: Long,
    percentage: Decimal,
    fixedFee: Decimal)

  /** `PartnerId` and `EffectiveFromLessThanEqual`: the row may take effect at `at`. */
  predicate Eligible(row: FeePolicyEntity, partnerId: Long, at: Long) {
    row.partnerId == partnerId && row.effectiveFrom <= at
  }

  /**
   * `findTop1By...OrderByEffectiveFromDesc`: the eligible row with the greatest
   * `effectiveFrom`, absent exactly when no row is eligible.
   */
  function FindTop1(rows: seq<FeePolicyEntity>, partnerId: Long, at: Long): (r: Option<FeePolicyEntity>)
    ensures r.Some? ==> r.value in rows && Eligible(r.value, partnerId, at)
    ensures r.Some? ==> forall row :: row in rows && Eligible(row, partnerId, at) ==>
      row.effectiveFrom <= r.value.effectiveFrom
    ensures r.None? <==> forall row :: row in rows ==> !Eligible(row, partnerId, at)
    decreases |rows|
  {
    if |rows| == 0 then None
    else
      var earlier := rows[..|rows| - 1];
      var last := rows[|rows| - 1];
      assert rows == earlier + [last];
      var best := FindTop1(earlier, partnerId, at);
      if !Eligible(last, partnerId, at) then best
      else if best.Some? && last.effectiveFrom <= best.value.effectiveFrom then best
      else Some(last)
  }

  /** The `?.let { FeePolicy(...) }` mapping: every field carried over. */
  function ToDomain(row: FeePolicyEntity): (policy: FeePolicy)
    ensures policy.id == row.id && policy.partnerId == row.partnerId
    ensures policy.effectiveFrom == row.effectiveFrom
    ensures policy.percentage == row.percentage && policy.fixedFee == row.fixedFee
  {
    FeePolicy(row.id, row.partnerId, row.effectiveFrom, row.percentage, row.fixedFee)
  }

  /** The mapping loses nothing: different rows give different policies. */
  lemma ToDomainInjective(a: FeePolicyEntity, b: FeePolicyEntity)
    requires ToDomain(a) == ToDomain(b)
    ensures a == b
  {
  }

  /**
   * findEffectivePolicy: the policy of `partnerId` in force at `at`. It belongs
   * to the partner, is never in the future, comes from a stored row, and no
   * eligible row takes effect later; absent exactly when no row is eligible.
   */
  function FindEffectivePolicy(rows: seq<FeePolicyEntity>, partnerId: Long, at: Long): (r: Option<FeePolicy>)
    ensures r.Some? ==> r.value.partnerId == partnerId && r.value.effectiveFrom <= at
    ensures r.Some? ==> exists row :: row in rows && Eligible(row, partnerId, at) && ToDomain(row) == r.value
    ensures r.Some? ==> forall row :: row in rows && Eligible(row, partnerId, at) ==>
      row.effectiveFrom <= r.value.effectiveFrom
    ensures r.None? <==> forall row :: row in rows ==> !Eligible(row, partnerId, at)
  {
    match FindTop1(rows, partnerId, at)
    case None => None
    case Some(row) => Some(ToDomain(row))
  }

  /** The rows that may take effect at `at` for `partnerId`, in table order. */
  function EligibleRows(rows: seq<FeePolicyEntity>, partnerId: Long, at: Long): (e: seq<FeePolicyEntity>)
    decreases |rows|
  {
    if |rows| == 0 then []
    else
      var earlier := EligibleRows(rows[..|rows| - 1], partnerId, at);
      if Eligible(rows[|rows| - 1], partnerId, at) then earlier + [rows[|rows| - 1]] else earlier
  }

  lemma {:induction false} EligibleRowsOfConcat(a: seq<FeePolicyEntity>, b: seq<FeePolicyEntity>, partnerId: Long, at: Long)
    ensures EligibleRows(a + b, partnerId, at) == EligibleRows(a, partnerId, at) + EligibleRows(b, partnerId, at)
    decreases |b|
  {
    if |b| == 0 {
      assert a + b == a;
    } else {
      var b' := b[..|b| - 1];
      assert (a + b)[..|a + b| - 1] == a + b';
      assert (a + b)[|a + b| - 1] == b[|b| - 1];
      EligibleRowsOfConcat(a, b', partnerId, at);
    }
  }

  /** The lookup sees only the eligible rows: dropping every other row changes nothing. */
  lemma {:induction false} FindTop1OnlySeesEligibleRows(rows: seq<FeePolicyEntity>, partnerId: Long, at: Long)
    ensures FindTop1(rows, partnerId, at) == FindTop1(EligibleRows(rows, partnerId, at), partnerId, at)
    decreases |rows|
  {
    if |rows| > 0 {
      var earlier := rows[..|rows| - 1];
      FindTop1OnlySeesEligibleRows(earlier, partnerId, at);
      var e := EligibleRows(earlier, partnerId, at);
      if Eligible(rows[|rows| - 1], partnerId, at) {
        assert (e + [rows[|rows| - 1]])[..|e|] == e;
      }
    }
  }

  /**
   * Inserting rows of other partners, or rows that take effect after `at`,
   * anywhere in the table leaves the effective policy unchanged.
   */
  lemma IrrelevantRowsDoNotMatter(before: seq<FeePolicyEntity>, extra: seq<FeePolicyEntity>,
                                  after: seq<FeePolicyEntity>, partnerId: Long, at: Long)
    requires forall row :: row in extra ==> row.partnerId != partnerId || row.effectiveFrom > at
    ensures FindEffectivePolicy(before + extra + after, partnerId, at) == FindEffectivePolicy(before + after, partnerId, at)
  {
    var all, kept := before + extra + after, before + after;
    EligibleRowsEmpty(extra, partnerId, at);
    EligibleRowsOfConcat(before + extra, after, partnerId, at);
    EligibleRowsOfConcat(before, extra, partnerId, at);
    EligibleRowsOfConcat(before, after, partnerId, at);
    assert EligibleRows(all, partnerId, at) == EligibleRows(kept, partnerId, at);
    FindTop1OnlySeesEligibleRows(all, partnerId, at);
    FindTop1OnlySeesEligibleRows(kept, partnerId, at);
    assert FindTop1(all, partnerId, at) == FindTop1(kept, partnerId, at);
  }

  lemma {:induction false} EligibleRowsEmpty(rows: seq<FeePolicyEntity>, partnerId: Long, at: Long)
    requires forall row :: row in rows ==> !Eligible(row, partnerId, at)
    ensures EligibleRows(rows, partnerId, at) == []
    decreases |rows|
  {
    if |rows| > 0 {
      var earlier := rows[..|rows| - 1];
      assert forall row :: row in earlier ==> row in rows;
      EligibleRowsEmpty(earlier, partnerId, at);
    }
  }

  /** No two rows of one partner take effect at the same instant. */
  predicate DistinctEffectiveFrom(rows: seq<FeePolicyEntity>) {
    forall i, j :: 0 <= i < j < |rows| && rows[i].partnerId == rows[j].partnerId ==>
      rows[i].effectiveFrom != rows[j].effectiveFrom
  }

  /**
   * With distinct `effectiveFrom` per partner the selection rule determines
   * one row: every eligible row with the greatest `effectiveFrom` is the one
   * the lookup returns, whatever order the database scans in.
   */
  lemma EffectivePolicyUnique(rows: seq<FeePolicyEntity>, partnerId: Long, at: Long, row: FeePolicyEntity)
    requires DistinctEffectiveFrom(rows)
    requires row in rows && Eligible(row, partnerId, at)
    requires forall other :: other in rows && Eligible(other, partnerId, at) ==> other.effectiveFrom <= row.effectiveFrom
    ensures FindEffectivePolicy(rows, partnerId, at) == Some(ToDomain(row))
  {
    var found := FindTop1(rows, partnerId, at).value;
    var i :| 0 <= i < |rows| && rows[i] == row;
    var j :| 0 <= j < |rows| && rows[j] == found;
    assert found.effectiveFrom == row.effectiveFrom && found.partnerId == row.partnerId;
    assert i == j;
  }

  /** Later instants never fall back to an older policy, and a policy once in force stays available. */
  lemma EffectivePolicyMonotonic(rows: seq<FeePolicyEntity>, partnerId: Long, at: Long, later: Long)
    requires at <= later
    requires FindEffectivePolicy(rows, partnerId, at).Some?
    ensures FindEffectivePolicy(rows, partnerId, later).Some?
    ensures FindEffectivePolicy(rows, partnerId, at).value.effectiveFrom <=
      FindEffectivePolicy(rows, partnerId, later).value.effectiveFrom
  {
    var row :| row in rows && Eligible(row, partnerId, at) && ToDomain(row) == FindEffectivePolicy(rows, partnerId, at).value;
    assert Eligible(row, partnerId, later);
  }

  /**
   * Policies of partner 7 from 2024-01-01 (2%) and from 2024-06-01 (3%):
   * 2024-03-15 gets the first, 2024-07-01 the second, 2023-12-01 none.
   */
  lemma PointInTimeExample()
    ensures var jan := FeePolicyEntity(1, 7, 1704067200000, Decimal(2, 2), Decimal(0, 0));
      var jun := FeePolicyEntity(2, 7, 1717200000000, Decimal(3, 2), Decimal(0, 0));
      && FindEffectivePolicy([jan, jun], 7, 1710460800000) == Some(ToDomain(jan))
      && FindEffectivePolicy([jan, jun], 7, 1719792000000) == Some(ToDomain(jun))
      && FindEffectivePolicy([jan, jun], 7, 1701388800000) == None
  {
    var jan := FeePolicyEntity(1, 7, 1704067200000, Decimal(2, 2), Decimal(0, 0));
    var jun := FeePolicyEntity(2, 7, 1717200000000, Decimal(3, 2), Decimal(0, 0));
    EffectivePolicyUnique([jan, jun], 7, 1710460800000, jan);
    EffectivePolicyUnique([jan, jun], 7, 1719792000000, jun);
  }
}
