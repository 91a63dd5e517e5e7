/** The customer ledger: an ordered list of user records that may repeat a
    meter number, the first-match lookup the bill button performs, the
    remove-every-match the delete button performs, and the flat-rate bill. */
module CustomerLedger {
  import opened Wrappers

  /** One customer record: name, meter number and units consumed. `real`
      stands in for Java's `double`. */
  datatype User = User(name: string, meter: string, units: real)

  /** The in-memory user list, in insertion order. Meter numbers are not
      required to be unique. */
  type Ledger = seq<User>

  /** Rupees charged per unit consumed. */
  const Rate: real := 5.0

  /** No record of `l` carries meter number `q` (compared with Java's exact,
      case-sensitive `String.equals`). */
  predicate NoneWithMeter(l: Ledger, q: string) {
    forall i :: 0 <= i < |l| ==> l[i].meter != q
  }

  /** How many records of `l` carry meter number `q`. */
  function CountWithMeter(l: Ledger, q: string): (n: nat)
    ensures n <= |l|
    ensures n == 0 <==> NoneWithMeter(l, q)
    decreases |l|
  {
    if l == [] then 0
    else (if l[0].meter == q then 1 else 0) + CountWithMeter(l[1..], q)
  }

  /** `a` can be obtained from `b` by dropping elements, keeping the order
      of the rest. */
  predicate IsSubsequence<T(==)>(a: seq<T>, b: seq<T>)
    decreases |b|
  {
    if a == [] then true
    else if b == [] then false
    else (a[0] == b[0] && IsSubsequence(a[1..], b[1..])) || IsSubsequence(a, b[1..])
  }

  // ---------------------------------------------------------------------
  // Lookup: the first record with the meter number

  /** Index of the first record with meter number `q`, scanning in
      insertion order. */
  function FindIndex(l: Ledger, q: string): (r: Option<nat>)
    ensures r.Some? ==> r.value < |l| && l[r.value].meter == q
    ensures r.Some? ==> forall j :: 0 <= j < r.value ==> l[j].meter != q
    ensures r.None? <==> NoneWithMeter(l, q)
    decreases |l|
  {
    if l == [] then None
    else if l[0].meter == q then Some(0)
    else
      match FindIndex(l[1..], q)
      case None => None
      case Some(k) => Some(k + 1)
  }

  /** The record the bill button bills: the earliest one with meter number
      `q`, or `None` when no record has it. */
  function Find(l: Ledger, q: string): (r: Option<User>)
    ensures r.None? <==> NoneWithMeter(l, q)
    ensures r.Some? ==> r.value.meter == q
    ensures r.Some? ==> exists k :: 0 <= k < |l| && l[k] == r.value && NoneWithMeter(l[..k], q)
  {
    match FindIndex(l, q)
    case None => None
    case Some(k) =>
      assert NoneWithMeter(l[..k], q);
      Some(l[k])
  }

  /** The for-each loop of the bill button: stops at the first record whose
      meter number equals `q`. */
  method ScanForMeter(l: Ledger, q: string) returns (found: Option<User>)
    ensures found.None? <==> NoneWithMeter(l, q)
    ensures found.Some? ==> found.value.meter == q
    ensures found == Find(l, q)
  {
    var i := 0;
    while i < |l|
      invariant 0 <= i <= |l|
      invariant forall j :: 0 <= j < i ==> l[j].meter != q
    {
      if l[i].meter == q {
        return Some(l[i]);
      }
      i := i + 1;
    }
    return None;
  }

  // ---------------------------------------------------------------------
  // Deletion: every record with the meter number goes

  /** The user list with every record of meter number `q` dropped. */
  function Remove(l: Ledger, q: string): (r: Ledger)
    ensures NoneWithMeter(r, q)
    ensures |r| == |l| - CountWithMeter(l, q)
    ensures IsSubsequence(r, l)
    ensures NoneWithMeter(l, q) ==> r == l
    decreases |l|
  {
    if l == [] then []
    else if l[0].meter == q then
      var rest := Remove(l[1..], q);
      SubsequenceOfTail(rest, l);
      rest
    else
      var rest := Remove(l[1..], q);
      assert ([l[0]] + rest)[1..] == rest;
      assert [l[0]] + l[1..] == l;
      [l[0]] + rest
  }

  lemma SubsequenceOfTail<T>(a: seq<T>, b: seq<T>)
    requires b != [] && IsSubsequence(a, b[1..])
    ensures IsSubsequence(a, b)
  {
  }

  /** What `removeIf` reports alongside the shortened list. */
  datatype Deletion = Deletion(kept: Ledger, removed: bool)

  /** `users.removeIf(u -> u.meterNumber.equals(q))`: the list without the
      matching records, and whether anything was removed. */
  function Delete(l: Ledger, q: string): (d: Deletion)
    ensures d.kept == Remove(l, q)
    ensures d.removed <==> !NoneWithMeter(l, q)
    ensures !d.removed ==> d.kept == l
  {
    var kept := Remove(l, q);
    Deletion(kept, |kept| != |l|)
  }

  /** `removeIf` as a loop: walks the list once, keeping every record whose
      meter number differs from `q`. */
  method RemoveIf(l: Ledger, q: string) returns (kept: Ledger, removed: bool)
    ensures kept == Remove(l, q)
    ensures removed <==> !NoneWithMeter(l, q)
  {
    kept, removed := [], false;
    var i := 0;
    while i < |l|
      invariant 0 <= i <= |l|
      invariant kept == Remove(l[..i], q)
      invariant removed <==> !NoneWithMeter(l[..i], q)
    {
      assert l[..i + 1] == l[..i] + [l[i]];
      RemoveDistributes(l[..i], [l[i]], q);
      if l[i].meter == q {
        removed := true;
      } else {
        kept := kept + [l[i]];
      }
      i := i + 1;
    }
    assert l[..|l|] == l;
  }

  // ---------------------------------------------------------------------
  // Billing

  /** The bill for one record at the flat rate: zero for zero units, never
      negative for non-negative units, and it determines the units back. */
  function Bill(u: User): (amount: real)
    ensures u.units == 0.0 ==> amount == 0.0
    ensures u.units >= 0.0 ==> amount >= 0.0
    ensures amount / Rate == u.units
  {
    u.units * Rate
  }

  /** More units never cost less. */
  lemma BillMonotone(u: User, v: User)
    requires u.units <= v.units
    ensures Bill(u) <= Bill(v)
  {
  }

  /** The bill is linear in the units: no tiers, no fixed charge. */
  lemma BillAdditive(u: User, a: real, b: real)
    ensures Bill(u.(units := a + b)) == Bill(u.(units := a)) + Bill(u.(units := b))
  {
  }

  // ---------------------------------------------------------------------
  // Properties of deletion

  /** Deletion works piecewise: the survivors of `a + b` are the survivors
      of `a` followed by the survivors of `b`, so relative order is kept. */
  lemma {:induction false} RemoveDistributes(a: Ledger, b: Ledger, q: string)
    ensures Remove(a + b, q) == Remove(a, q) + Remove(b, q)
    decreases |a|
  {
    if a == [] {
      assert a + b == b;
    } else {
      assert (a + b)[0] == a[0];
      assert (a + b)[1..] == a[1..] + b;
      RemoveDistributes(a[1..], b, q);
    }
  }

  /** Every record with a different meter number survives deletion. */
  lemma {:induction false} RemoveKeepsOthers(l: Ledger, q: string, i: nat)
    requires i < |l| && l[i].meter != q
    ensures l[i] in Remove(l, q)
    decreases |l|
  {
    if i > 0 {
      RemoveKeepsOthers(l[1..], q, i - 1);
    }
  }

  /** A subsequence of `l` free of meter number `q` has at most as many
      records as `l` has with other meter numbers. */
  lemma {:induction false} SubsequenceWithoutMeterBound(r: Ledger, l: Ledger, q: string)
    requires IsSubsequence(r, l) && NoneWithMeter(r, q)
    ensures |r| <= |l| - CountWithMeter(l, q)
    decreases |l|
  {
    if r == [] {
    } else if r[0] == l[0] && IsSubsequence(r[1..], l[1..]) {
      SubsequenceWithoutMeterBound(r[1..], l[1..], q);
    } else {
      SubsequenceWithoutMeterBound(r, l[1..], q);
    }
  }

  /** `Remove` is the only way to drop the records of meter `q` while
      keeping the others in order: any order-preserving selection that
      avoids `q` and is as long as the number of other records is it. */
  lemma {:induction false} RemoveIsDetermined(l: Ledger, q: string, r: Ledger)
    requires IsSubsequence(r, l) && NoneWithMeter(r, q)
    requires |r| == |l| - CountWithMeter(l, q)
    ensures r == Remove(l, q)
    decreases |l|
  {
    if l == [] {
    } else if l[0].meter == q {
      assert r == [] || r[0] != l[0];
      SubsequenceWithoutMeterBound(r, l[1..], q);
      RemoveIsDetermined(l[1..], q, r);
    } else if r != [] && r[0] == l[0] && IsSubsequence(r[1..], l[1..]) {
      RemoveIsDetermined(l[1..], q, r[1..]);
      assert r == [l[0]] + r[1..];
    } else {
      assert IsSubsequence(r, l[1..]);
      SubsequenceWithoutMeterBound(r, l[1..], q);
      assert false;
    }
  }

  /** Deleting twice is deleting once. */
  lemma RemoveIdempotent(l: Ledger, q: string)
    ensures Remove(Remove(l, q), q) == Remove(l, q)
  {
  }

  /** Deleting one meter number leaves the lookup of every other meter
      number exactly as it was. */
  lemma {:induction false} RemoveLeavesOtherLookups(l: Ledger, q: string, q': string)
    requires q != q'
    ensures Find(Remove(l, q), q') == Find(l, q')
    decreases |l|
  {
    if l != [] {
      RemoveLeavesOtherLookups(l[1..], q, q');
      FindCons(l[0], l[1..], q');
      if l[0].meter != q {
        assert Remove(l, q) == [l[0]] + Remove(l[1..], q);
        FindCons(l[0], Remove(l[1..], q), q');
      }
      assert [l[0]] + l[1..] == l;
    }
  }

  /** Lookup in a list with a record in front. */
  lemma FindCons(u: User, l: Ledger, q: string)
    ensures Find([u] + l, q) == if u.meter == q then Some(u) else Find(l, q)
  {
    assert ([u] + l)[1..] == l;
  }

  // ---------------------------------------------------------------------
  // Appending a record: what lookup and deletion then see

  /** Lookup after appending: the old first match stays the first match;
      only when there was none can the appended record be found. */
  lemma FindAfterAppend(l: Ledger, u: User, q: string)
    ensures Find(l + [u], q) ==
      if !NoneWithMeter(l, q) then Find(l, q)
      else if u.meter == q then Some(u)
      else None
  {
    var l' := l + [u];
    match FindIndex(l, q)
    case Some(k) =>
      assert l'[k] == l[k];
      assert !NoneWithMeter(l', q);
      var k' := FindIndex(l', q).value;
      assert k' == k;
    case None =>
      if u.meter == q {
        assert l'[|l|] == u;
        assert !NoneWithMeter(l', q);
        var k' := FindIndex(l', q).value;
        assert k' == |l|;
      } else {
        assert NoneWithMeter(l', q) by {
          forall j | 0 <= j < |l'| ensures l'[j].meter != q {
            if j < |l| { assert l'[j] == l[j]; }
          }
        }
      }
  }

  /** Appending a record counts once more towards its meter number: the
      ledger keeps duplicates side by side. */
  lemma {:induction false} CountAfterAppend(l: Ledger, u: User, q: string)
    ensures CountWithMeter(l + [u], q) == CountWithMeter(l, q) + (if u.meter == q then 1 else 0)
    decreases |l|
  {
    if l == [] {
      assert ([u])[1..] == [];
    } else {
      assert (l + [u])[1..] == l[1..] + [u];
      CountAfterAppend(l[1..], u, q);
    }
  }

  /** The asymmetry between the two buttons on a repeated meter number:
      after appending a record whose meter number is already present, the
      bill button still bills the older record, while the delete button
      removes the older and the newer records alike. */
  lemma DuplicateShadowedButDeletedTogether(l: Ledger, u: User)
    requires !NoneWithMeter(l, u.meter)
    ensures Find(l + [u], u.meter) == Find(l, u.meter)
    ensures Find(l + [u], u.meter) != Some(u) || u in l
    ensures Remove(l + [u], u.meter) == Remove(l, u.meter)
    ensures CountWithMeter(l + [u], u.meter) >= 2
  {
    FindAfterAppend(l, u, u.meter);
    RemoveDistributes(l, [u], u.meter);
    assert Remove([u], u.meter) == [];
    CountAfterAppend(l, u, u.meter);
  }
}
