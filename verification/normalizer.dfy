/**
  The serialization normaliser `safeSerialize` of src/core/database/models.ts:
  a total, pure, recursive rewrite of a value tree that turns every bigint
  into a number and rebuilds arrays element by element and objects key by key.

  `SafeSerialize` is the function as written. A `Date` satisfies
  `typeof data === 'object'` and is not an array, so it falls into the object
  branch and is rebuilt from `Object.entries(date)`, which is empty: every
  timestamp column comes out as `{}`. `Normalize` is the evidently intended
  function, in which a Date passes through like every other non-bigint
  scalar; the accessors of the model use it.
 */
module Normalizer {
  import opened Wrappers
  import opened Json

  /** safeSerialize as written. */
  function SafeSerialize(v: J): (r: J)
    ensures !HasBig(r)
    ensures Truthy(r) == Truthy(v)
    ensures v.JNull? || v.JUndef? || v.JBool? || v.JNum? || v.JStr? ==> r == v
    ensures v.JBig? ==> r == JNum(v.i)
    ensures v.JDate? ==> r == JObj([])
    ensures v.JArr? ==> r.JArr? && |r.items| == |v.items|
    ensures v.JArr? ==> forall i | 0 <= i < |v.items| :: r.items[i] == SafeSerialize(v.items[i])
    ensures v.JObj? ==> r.JObj? && FieldNames(r.fields) == FieldNames(v.fields)
    ensures v.JObj? ==> forall i | 0 <= i < |v.fields| :: r.fields[i] == (v.fields[i].0, SafeSerialize(v.fields[i].1))
  {
    match v
    case JBig(i) => JNum(i)
    case JArr(xs) => JArr(seq(|xs|, i requires 0 <= i < |xs| => SafeSerialize(xs[i])))
    case JDate(_) => JObj([])
    case JObj(fs) => JObj(seq(|fs|, i requires 0 <= i < |fs| => (fs[i].0, SafeSerialize(fs[i].1))))
    case _ => v
  }

  /** On a value without undefined anywhere, safeSerialize as written yields a
      JSON value (Dates having become `{}` and bigints numbers), so it can
      always be written to the cache and reads back unchanged: the code's
      cache hit returns exactly what its miss returned. */
  lemma {:induction false} SafeSerializeIsJsonValue(v: J)
    requires UndefFree(v)
    ensures IsJsonValue(SafeSerialize(v))
    ensures ToWire(SafeSerialize(v)).Some? && ToWire(SafeSerialize(v)).value == SafeSerialize(v)
  {
    match v {
      case JArr(xs) =>
        forall i | 0 <= i < |xs|
          ensures IsJsonValue(SafeSerialize(xs[i]))
        {
          SafeSerializeIsJsonValue(xs[i]);
        }
      case JObj(fs) =>
        forall i | 0 <= i < |fs|
          ensures IsJsonValue(SafeSerialize(fs[i].1))
        {
          SafeSerializeIsJsonValue(fs[i].1);
        }
      case _ =>
    }
    EncodeFixesJsonValues(SafeSerialize(v));
  }

  /** The normaliser the accessors apply: safeSerialize with Dates passed
      through unchanged. */
  function Normalize(v: J): (r: J)
    ensures !HasBig(r)
    ensures SameShape(v, r)
    ensures Truthy(r) == Truthy(v)
    ensures v.JBig? ==> r == JNum(v.i)
    ensures !v.JBig? && !v.JArr? && !v.JObj? ==> r == v
    ensures v.JArr? ==> forall i | 0 <= i < |v.items| :: r.items[i] == Normalize(v.items[i])
    ensures v.JObj? ==> forall i | 0 <= i < |v.fields| :: r.fields[i] == (v.fields[i].0, Normalize(v.fields[i].1))
  {
    match v
    case JBig(i) => JNum(i)
    case JArr(xs) => JArr(seq(|xs|, i requires 0 <= i < |xs| => Normalize(xs[i])))
    case JObj(fs) => JObj(seq(|fs|, i requires 0 <= i < |fs| => (fs[i].0, Normalize(fs[i].1))))
    case _ => v
  }

  /** A tree without bigints is already normal: normalising changes nothing,
      Dates included. */
  lemma {:induction false} NormalizeFixesBigFree(v: J)
    requires !HasBig(v)
    ensures Normalize(v) == v
  {
    match v
    case JArr(xs) =>
      forall i | 0 <= i < |xs| ensures Normalize(xs[i]) == xs[i] {
        NormalizeFixesBigFree(xs[i]);
      }
      assert Normalize(v).items == xs;
    case JObj(fs) =>
      forall i | 0 <= i < |fs| ensures Normalize(fs[i].1) == fs[i].1 {
        NormalizeFixesBigFree(fs[i].1);
      }
      assert Normalize(v).fields == fs;
    case _ =>
  }

  /** Normalising twice is normalising once, so a value read back from the
      cache needs no second pass. */
  lemma NormalizeIdempotent(v: J)
    ensures Normalize(Normalize(v)) == Normalize(v)
  {
    NormalizeFixesBigFree(Normalize(v));
  }

  /** Every property of a normalised object reads as the normalised property
      of the original, at the same key. */
  lemma NormalizeLookup(fs: seq<(string, J)>, k: string)
    ensures Normalize(JObj(fs)).JObj?
    ensures Lookup(fs, k).None? ==> Lookup(Normalize(JObj(fs)).fields, k).None?
    ensures Lookup(fs, k).Some? ==>
              Lookup(Normalize(JObj(fs)).fields, k) == Some(Normalize(Lookup(fs, k).value))
  {
    LookupMapped(fs, Normalize(JObj(fs)).fields, Normalize, k);
  }

  /** Whatever the accessors hand to the cache can be written: only a bigint
      or a top-level undefined makes `JSON.stringify` fail. */
  lemma NormalizeStorable(v: J)
    requires v != JUndef
    ensures ToWire(Normalize(v)).Some?
  {
  }

  /** safeSerialize as written is idempotent too. */
  lemma {:induction false} SafeSerializeIdempotent(v: J)
    ensures SafeSerialize(SafeSerialize(v)) == SafeSerialize(v)
  {
    match v
    case JArr(xs) =>
      forall i | 0 <= i < |xs| ensures SafeSerialize(SafeSerialize(xs[i])) == SafeSerialize(xs[i]) {
        SafeSerializeIdempotent(xs[i]);
      }
      assert SafeSerialize(SafeSerialize(v)).items == SafeSerialize(v).items;
    case JObj(fs) =>
      forall i | 0 <= i < |fs| ensures SafeSerialize(SafeSerialize(fs[i].1)) == SafeSerialize(fs[i].1) {
        SafeSerializeIdempotent(fs[i].1);
      }
      assert SafeSerialize(SafeSerialize(v)).fields == SafeSerialize(v).fields;
    case _ =>
  }

  /** The discrepancy of safeSerialize as written: a row whose column `k`
      holds a Date comes back with `{}` in that column, while the JSON text of
      the row itself would have carried the timestamp. The corrected
      `Normalize` keeps the Date. */
  lemma SafeSerializeErasesDates(fs: seq<(string, J)>, k: string, iso: string)
    requires Lookup(fs, k) == Some(JDate(iso))
    ensures Lookup(SafeSerialize(JObj(fs)).fields, k) == Some(JObj([]))
    ensures Lookup(Normalize(JObj(fs)).fields, k) == Some(JDate(iso))
    ensures ToWire(JDate(iso)) == Some(JStr(iso))
  {
    SafeSerializeDateColumn(fs, k, iso);
    NormalizeDateColumn(fs, k, iso);
  }

  lemma SafeSerializeDateColumn(fs: seq<(string, J)>, k: string, iso: string)
    requires Lookup(fs, k) == Some(JDate(iso))
    ensures Lookup(SafeSerialize(JObj(fs)).fields, k) == Some(JObj([]))
  {
    SafeSerializeLookup(fs, k);
  }

  lemma NormalizeDateColumn(fs: seq<(string, J)>, k: string, iso: string)
    requires Lookup(fs, k) == Some(JDate(iso))
    ensures Lookup(Normalize(JObj(fs)).fields, k) == Some(JDate(iso))
  {
    NormalizeLookup(fs, k);
  }

  lemma SafeSerializeLookup(fs: seq<(string, J)>, k: string)
    ensures SafeSerialize(JObj(fs)).JObj?
    ensures Lookup(fs, k).Some? ==>
              Lookup(SafeSerialize(JObj(fs)).fields, k) == Some(SafeSerialize(Lookup(fs, k).value))
  {
    LookupMapped(fs, SafeSerialize(JObj(fs)).fields, SafeSerialize, k);
  }

  /** What the code returns is safeSerialize of what the model's accessors
      return: normalising first changes nothing that safeSerialize keeps. */
  lemma {:induction false} SafeSerializeAfterNormalize(v: J)
    ensures SafeSerialize(Normalize(v)) == SafeSerialize(v)
  {
    match v
    case JArr(xs) =>
      forall i | 0 <= i < |xs| ensures SafeSerialize(Normalize(xs[i])) == SafeSerialize(xs[i]) {
        SafeSerializeAfterNormalize(xs[i]);
      }
      assert SafeSerialize(Normalize(v)).items == SafeSerialize(v).items;
    case JObj(fs) =>
      forall i | 0 <= i < |fs| ensures SafeSerialize(Normalize(fs[i].1)) == SafeSerialize(fs[i].1) {
        SafeSerializeAfterNormalize(fs[i].1);
      }
      assert SafeSerialize(Normalize(v)).fields == SafeSerialize(v).fields;
    case _ =>
  }

  /** On a tree without Dates the two normalisers agree, so there the model's
      accessors return exactly what the code returns. */
  lemma {:induction false} SafeSerializeMatchesNormalize(v: J)
    requires !HasDate(v)
    ensures SafeSerialize(v) == Normalize(v)
  {
    match v
    case JArr(xs) =>
      forall i | 0 <= i < |xs| ensures SafeSerialize(xs[i]) == Normalize(xs[i]) {
        SafeSerializeMatchesNormalize(xs[i]);
      }
      assert SafeSerialize(v).items == Normalize(v).items;
    case JObj(fs) =>
      forall i | 0 <= i < |fs| ensures SafeSerialize(fs[i].1) == Normalize(fs[i].1) {
        SafeSerializeMatchesNormalize(fs[i].1);
      }
      assert SafeSerialize(v).fields == Normalize(v).fields;
    case _ =>
  }
}
