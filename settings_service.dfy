/**
 * The policy store: reading the settings row with its repair of missing or
 * sentinel values, overwriting supplied keys, and re-deriving overdue fines
 * after a policy change.
 */
module SettingsService {
  import opened Wrappers
  import opened Models
  import opened Ledger
  import opened Fines
  import opened Database
  import opened SettingsSchema

  /** A stored fine rate that the read path replaces: NULL, 0.0 or 0.5. */
  predicate IsSentinelRate(x: Option<real>) {
    x == None || x == Some(0.0) || x == Some(0.5)
  }

  /** A stored row that the read path leaves as it is. */
  predicate NeedsNoRepair(row: SettingsRow) {
    row.pickupWindowDays.Some? && row.standardLoanDays.Some? && !IsSentinelRate(row.dailyFineAmount)
  }

  /**
   * The policy a read of the settings returns, given the stored row (or
   * its absence): NULL columns take their defaults, a sentinel rate becomes
   * 0.1, every other stored value is kept, and a missing row reads as the
   * column defaults.
   */
  function CurrentPolicy(row: Option<SettingsRow>): (p: Policy)
    ensures row.None? ==> p == DefaultPolicy
    ensures row.Some? ==> p.pickupWindowDays == row.value.pickupWindowDays.GetOr(DefaultPickupWindowDays)
    ensures row.Some? ==> p.standardLoanDays == row.value.standardLoanDays.GetOr(DefaultStandardLoanDays)
    ensures row.Some? && !IsSentinelRate(row.value.dailyFineAmount) ==> p.dailyFineAmount == row.value.dailyFineAmount.value
    ensures row.Some? && IsSentinelRate(row.value.dailyFineAmount) ==> p.dailyFineAmount == DefaultDailyFineAmount
    ensures p.dailyFineAmount != 0.0 && p.dailyFineAmount != 0.5
    ensures NeedsNoRepair(RowOf(p))
  {
    match row
    case None => DefaultPolicy
    case Some(r) =>
      Policy(
        r.pickupWindowDays.GetOr(DefaultPickupWindowDays),
        r.standardLoanDays.GetOr(DefaultStandardLoanDays),
        if IsSentinelRate(r.dailyFineAmount) then DefaultDailyFineAmount else r.dailyFineAmount.value)
  }

  /** A row that needs no repair reads back exactly as stored. */
  lemma RepairKeepsSoundRow(row: SettingsRow)
    requires NeedsNoRepair(row)
    ensures RowOf(CurrentPolicy(Some(row))) == row
  {
  }

  /** Reading twice: the second read repairs nothing and returns the same policy. */
  lemma GetSettingsIdempotent(row: Option<SettingsRow>)
    ensures CurrentPolicy(Some(RowOf(CurrentPolicy(row)))) == CurrentPolicy(row)
  {
    RepairKeepsSoundRow(RowOf(CurrentPolicy(row)));
  }

  /**
   * A rate of 0.0 or 0.5 passes the update validator and is stored, but the
   * next read replaces it by the default rate.
   */
  lemma AcceptedSentinelRateReadsAsDefault(p: Policy, rate: real)
    requires FineRateOk(rate) && (rate == 0.0 || rate == 0.5)
    ensures CurrentPolicy(Some(RowOf(p.(dailyFineAmount := rate)))).dailyFineAmount == DefaultDailyFineAmount
  {
  }

  /**
   * Reads the settings row, patching NULL or sentinel columns in place and
   * writing the row back only when something was patched; creates a row
   * with the column defaults when there is none.
   */
  method GetSettings(db: Db) returns (p: Policy)
    requires db.Valid()
    modifies db`settings
    ensures db.Valid()
    ensures p == CurrentPolicy(old(db.settings))
    ensures db.settings == Some(RowOf(p))
    ensures old(db.settings).Some? && NeedsNoRepair(old(db.settings).value) ==> db.settings == old(db.settings)
  {
    match db.settings {
      case Some(row) =>
        var r := row;
        var updated := false;
        if r.pickupWindowDays.None? {
          r := r.(pickupWindowDays := Some(DefaultPickupWindowDays));
          updated := true;
        }
        if r.standardLoanDays.None? {
          r := r.(standardLoanDays := Some(DefaultStandardLoanDays));
          updated := true;
        }
        if IsSentinelRate(r.dailyFineAmount) {
          r := r.(dailyFineAmount := Some(DefaultDailyFineAmount));
          updated := true;
        }
        if updated {
          db.settings := Some(r);
        }
        p := Policy(r.pickupWindowDays.value, r.standardLoanDays.value, r.dailyFineAmount.value);
      case None =>
        p := DefaultPolicy;
        db.settings := Some(RowOf(p));
    }
  }

  /** One key/value pair of an update dictionary. */
  datatype SettingField = PickupWindowDays(days: int) | StandardLoanDays(days: int) | DailyFineAmount(amount: real)

  predicate SameKey(f: SettingField, g: SettingField) {
    || (f.PickupWindowDays? && g.PickupWindowDays?)
    || (f.StandardLoanDays? && g.StandardLoanDays?)
    || (f.DailyFineAmount? && g.DailyFineAmount?)
  }

  /** The keys of a dictionary are distinct. */
  predicate DistinctKeys(fs: seq<SettingField>) {
    forall i, j | 0 <= i < j < |fs| :: !SameKey(fs[i], fs[j])
  }

  /** Policy `p` holds the value that field `f` carries. */
  predicate Carries(p: Policy, f: SettingField) {
    match f
    case PickupWindowDays(d) => p.pickupWindowDays == d
    case StandardLoanDays(d) => p.standardLoanDays == d
    case DailyFineAmount(x) => p.dailyFineAmount == x
  }

  /** One `setattr` on the settings row. */
  function Assign(p: Policy, f: SettingField): (r: Policy)
    ensures Carries(r, f)
    ensures forall g :: !SameKey(f, g) ==> (Carries(r, g) <==> Carries(p, g))
  {
    match f
    case PickupWindowDays(d) => p.(pickupWindowDays := d)
    case StandardLoanDays(d) => p.(standardLoanDays := d)
    case DailyFineAmount(x) => p.(dailyFineAmount := x)
  }

  /** The `setattr` loop over a whole dictionary, in its order. */
  function AssignAll(p: Policy, fs: seq<SettingField>): Policy
  {
    if fs == [] then p else Assign(AssignAll(p, fs[..|fs| - 1]), fs[|fs| - 1])
  }

  /**
   * With distinct keys, every supplied key ends up with its value and every
   * value that was not supplied keeps what it was.
   */
  lemma {:induction false} AssignAllOverwritesSupplied(p: Policy, fs: seq<SettingField>)
    requires DistinctKeys(fs)
    ensures forall i | 0 <= i < |fs| :: Carries(AssignAll(p, fs), fs[i])
    ensures forall g | (forall i | 0 <= i < |fs| :: !SameKey(fs[i], g)) :: Carries(AssignAll(p, fs), g) <==> Carries(p, g)
  {
    if fs != [] {
      var init := fs[..|fs| - 1];
      var last := fs[|fs| - 1];
      assert DistinctKeys(init);
      AssignAllOverwritesSupplied(p, init);
      var q := AssignAll(p, init);
      forall i | 0 <= i < |fs|
        ensures Carries(AssignAll(p, fs), fs[i])
      {
        if i < |fs| - 1 {
          assert fs[i] == init[i];
          assert !SameKey(last, fs[i]);
        }
      }
      forall g | (forall i | 0 <= i < |fs| :: !SameKey(fs[i], g))
        ensures Carries(AssignAll(p, fs), g) <==> Carries(p, g)
      {
        assert !SameKey(last, g);
        assert forall i | 0 <= i < |init| :: !SameKey(init[i], g) by {
          forall i | 0 <= i < |init| ensures !SameKey(init[i], g) {
            assert init[i] == fs[i];
          }
        }
      }
    }
  }

  /** The dictionary an update body dumps to: all three keys. */
  function Dump(u: SettingsUpdate): (fs: seq<SettingField>)
    ensures DistinctKeys(fs)
  {
    [PickupWindowDays(u.pickupWindowDays), StandardLoanDays(u.standardLoanDays), DailyFineAmount(u.dailyFineAmount)]
  }

  /** Applying a full update body replaces the whole policy by it, whatever was stored. */
  lemma {:induction false} AssignDumpReplacesPolicy(p: Policy, u: SettingsUpdate)
    ensures AssignAll(p, Dump(u)) == Policy(u.pickupWindowDays, u.standardLoanDays, u.dailyFineAmount)
  {
    var fs := Dump(u);
    assert fs[..|fs| - 1] == fs[..2];
    assert fs[..2][..1] == fs[..1];
    assert fs[..1][..0] == [];
    assert AssignAll(p, fs[..1]) == Assign(p, fs[0]);
    assert AssignAll(p, fs[..2]) == Assign(Assign(p, fs[0]), fs[1]);
  }

  /** Every loan overdue at `now` re-fined at `rate` and made OVERDUE; every other loan as it was. */
  function Recalculated(loans: map<int, Loan>, rate: real, now: Timestamp): map<int, Loan> {
    MarkAll(loans, loans.Keys, rate, now)
  }

  /**
   * Applies the supplied keys to the (repaired) settings row, then
   * re-derives the status and fine of every overdue loan at the new rate.
   */
  method UpdateSettings(db: Db, updates: seq<SettingField>, now: Timestamp) returns (p: Policy)
    requires db.Valid()
    modifies db
    ensures db.Valid()
    ensures p == AssignAll(CurrentPolicy(old(db.settings)), updates)
    ensures db.settings == Some(RowOf(p))
    ensures db.loans == Recalculated(old(db.loans), p.dailyFineAmount, now)
    ensures db.books == old(db.books) && db.users == old(db.users)
    ensures db.nextBookId == old(db.nextBookId) && db.nextLoanId == old(db.nextLoanId) && db.nextUserId == old(db.nextUserId)
    ensures Conserved(old(db.books), old(db.loans), db.books, db.loans)
  {
    var start := GetSettings(db);
    p := start;
    for i := 0 to |updates|
      invariant p == AssignAll(start, updates[..i])
    {
      assert updates[..i + 1][..i] == updates[..i];
      p := Assign(p, updates[i]);
    }
    assert updates[..|updates|] == updates;
    db.settings := Some(RowOf(p));
    RecalculateOverdueFines(db, p, now);
  }

  /**
   * Walks the loans the overdue query selects (ACTIVE or OVERDUE, with a due
   * date before `now`), in ascending id order, making each OVERDUE with a
   * fine at the policy's rate.
   */
  method RecalculateOverdueFines(db: Db, p: Policy, now: Timestamp)
    requires db.Valid()
    modifies db`loans
    ensures db.Valid()
    ensures db.loans == Recalculated(old(db.loans), p.dailyFineAmount, now)
    ensures Conserved(db.books, old(db.loans), db.books, db.loans)
  {
    ghost var before := db.loans;
    for id := 1 to db.nextLoanId
      invariant db.loans.Keys == before.Keys
      invariant forall k | k in before ::
        db.loans[k] == if k < id then MarkedOverdue(before[k], p.dailyFineAmount, now) else before[k]
    {
      if id in db.loans && IsOverdue(db.loans[id], now) {
        var loan := db.loans[id];
        db.loans := db.loans[id := loan.(fineAmount := Fine(loan.dueDate.value, now, p.dailyFineAmount), status := Overdue)];
      }
    }
    assert db.loans == Recalculated(before, p.dailyFineAmount, now);
    MarkAllConserves(db.books, before, before.Keys, p.dailyFineAmount, now);
  }
}
