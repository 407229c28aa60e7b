/** The small option type used across the model. */
module Wrappers {

  datatype Option<+T> = None | Some(value: T) {

    /** Returns the value in Some, or `default` when None. */
    function GetOr(default: T): T {
      match this
      case Some(v) => v
      case None => default
    }
  }
}

/**
  JavaScript values as they travel between the relational store, the cache and
  the HTTP layer. An object is a sequence of key/value pairs in its own-property
  enumeration order (the order `Object.entries`, `JSON.stringify` and
  `JSON.parse` all agree on); like a JavaScript object it is meant to hold each
  key once. Numbers are mathematical integers: floating point is not modelled.
 */
module Json {
  import opened Wrappers

  datatype J =
    | JUndef                          // `undefined`
    | JNull
    | JBool(b: bool)
    | JNum(n: int)                    // a JavaScript number
    | JBig(i: int)                    // a `bigint`, as the driver returns for int8 columns
    | JStr(s: string)
    | JDate(iso: string)              // a `Date`; `iso` is what its toISOString() returns
    | JArr(items: seq<J>)
    | JObj(fields: seq<(string, J)>)

  /** JavaScript truthiness, the test `if (v)` applies. Dates, arrays and
      objects are truthy even when empty. */
  predicate Truthy(v: J)
    ensures !Truthy(v) <==> v in {JUndef, JNull, JBool(false), JNum(0), JBig(0), JStr("")}
  {
    match v
    case JUndef => false
    case JNull => false
    case JBool(b) => b
    case JNum(n) => n != 0
    case JBig(i) => i != 0
    case JStr(s) => s != ""
    case _ => true
  }

  /** A bigint occurs somewhere in the tree. */
  predicate HasBig(v: J) {
    match v
    case JBig(_) => true
    case JArr(xs) => exists i | 0 <= i < |xs| :: HasBig(xs[i])
    case JObj(fs) => exists i | 0 <= i < |fs| :: HasBig(fs[i].1)
    case _ => false
  }

  /** No undefined occurs anywhere in the tree. */
  predicate UndefFree(v: J) {
    match v
    case JUndef => false
    case JArr(xs) => forall i | 0 <= i < |xs| :: UndefFree(xs[i])
    case JObj(fs) => forall i | 0 <= i < |fs| :: UndefFree(fs[i].1)
    case _ => true
  }

  /** A Date occurs somewhere in the tree. */
  predicate HasDate(v: J) {
    match v
    case JDate(_) => true
    case JArr(xs) => exists i | 0 <= i < |xs| :: HasDate(xs[i])
    case JObj(fs) => exists i | 0 <= i < |fs| :: HasDate(fs[i].1)
    case _ => false
  }

  /** A value `JSON.parse` can return: no undefined, bigint or Date at any depth. */
  predicate IsJsonValue(v: J) {
    match v
    case JUndef => false
    case JBig(_) => false
    case JDate(_) => false
    case JArr(xs) => forall i | 0 <= i < |xs| :: IsJsonValue(xs[i])
    case JObj(fs) => forall i | 0 <= i < |fs| :: IsJsonValue(fs[i].1)
    case _ => true
  }

  type JsonValue = v: J | IsJsonValue(v) witness JNull

  /** Two trees with the same skeleton: arrays of the same length, objects with
      the same keys in the same order, and pairwise the same skeleton below;
      any two scalars match. */
  predicate SameShape(a: J, b: J) {
    match a
    case JArr(xs) =>
      b.JArr? && |xs| == |b.items| &&
      forall i | 0 <= i < |xs| :: SameShape(xs[i], b.items[i])
    case JObj(fs) =>
      b.JObj? && FieldNames(fs) == FieldNames(b.fields) &&
      forall i | 0 <= i < |fs| :: SameShape(fs[i].1, b.fields[i].1)
    case _ => !b.JArr? && !b.JObj?
  }

  function FieldNames(fs: seq<(string, J)>): (ks: seq<string>)
    ensures |ks| == |fs|
    ensures forall i | 0 <= i < |fs| :: ks[i] == fs[i].0
  {
    if |fs| == 0 then [] else [fs[0].0] + FieldNames(fs[1..])
  }

  /** Property read `obj[k]`: the value of the first member named `k`. */
  function Lookup(fs: seq<(string, J)>, k: string): (r: Option<J>)
    ensures r.None? <==> k !in FieldNames(fs)
    ensures r.Some? ==> exists i | 0 <= i < |fs| :: fs[i] == (k, r.value)
  {
    if |fs| == 0 then None
    else if fs[0].0 == k then Some(fs[0].1)
    else
      assert FieldNames(fs) == [fs[0].0] + FieldNames(fs[1..]);
      var r := Lookup(fs[1..], k);
      assert r.Some? ==> exists i | 0 <= i < |fs[1..]| :: fs[1..][i] == (k, r.value);
      r
  }

  /** Object spread with one extra member, `{...obj, k: v}`: an existing member
      keeps its position and takes the new value, a new one goes last. */
  function Put(fs: seq<(string, J)>, k: string, v: J): seq<(string, J)> {
    if |fs| == 0 then [(k, v)]
    else if fs[0].0 == k then [(k, v)] + fs[1..]
    else [fs[0]] + Put(fs[1..], k, v)
  }

  /** Reading the spread key gives the spread value. */
  lemma {:induction false} PutLookup(fs: seq<(string, J)>, k: string, v: J)
    ensures Lookup(Put(fs, k, v), k) == Some(v)
  {
    if |fs| > 0 && fs[0].0 != k {
      PutLookup(fs[1..], k, v);
      assert Put(fs, k, v)[1..] == Put(fs[1..], k, v);
    }
  }

  /** Spreading in a member the object already has keeps every name in
      place. */
  lemma {:induction false} PutExisting(fs: seq<(string, J)>, k: string, v: J)
    requires k in FieldNames(fs)
    ensures FieldNames(Put(fs, k, v)) == FieldNames(fs)
  {
    var r := Put(fs, k, v);
    assert FieldNames(fs) == [fs[0].0] + FieldNames(fs[1..]);
    assert FieldNames(r) == [r[0].0] + FieldNames(r[1..]);
    if fs[0].0 != k {
      assert r[1..] == Put(fs[1..], k, v);
      PutExisting(fs[1..], k, v);
    } else {
      assert r[1..] == fs[1..];
    }
  }

  /** Spreading in a new member appends its name last. */
  lemma {:induction false} PutNew(fs: seq<(string, J)>, k: string, v: J)
    requires k !in FieldNames(fs)
    ensures FieldNames(Put(fs, k, v)) == FieldNames(fs) + [k]
  {
    forall i | 0 <= i < |fs|
      ensures fs[i].0 != k
    {
      assert FieldNames(fs)[i] == fs[i].0;
    }
    PutNewAppends(fs, k, v);
    FieldNamesSnoc(fs, (k, v));
  }

  /** The names of `fs + [p]` are the names of `fs` followed by `p`'s name. */
  lemma FieldNamesSnoc(fs: seq<(string, J)>, p: (string, J))
    ensures FieldNames(fs + [p]) == FieldNames(fs) + [p.0]
  {
    var a := FieldNames(fs + [p]);
    var b := FieldNames(fs) + [p.0];
    forall i | 0 <= i < |a|
      ensures a[i] == b[i]
    {
      assert a[i] == (fs + [p])[i].0;
    }
  }

  /** Spreading in a member no existing one is named after appends it. */
  lemma {:induction false} PutNewAppends(fs: seq<(string, J)>, k: string, v: J)
    requires forall i | 0 <= i < |fs| :: fs[i].0 != k
    ensures Put(fs, k, v) == fs + [(k, v)]
  {
    if |fs| > 0 {
      PutNewAppends(fs[1..], k, v);
      calc {
        Put(fs, k, v);
        [fs[0]] + Put(fs[1..], k, v);
        [fs[0]] + (fs[1..] + [(k, v)]);
        { assert fs == [fs[0]] + fs[1..]; }
        fs + [(k, v)];
      }
    }
  }

  /** The names of `[p] + t` are `p`'s name followed by the names of `t`. */
  lemma FieldNamesCons(p: (string, J), t: seq<(string, J)>)
    ensures FieldNames([p] + t) == [p.0] + FieldNames(t)
  {
    assert ([p] + t)[1..] == t;
  }

  /** Spreading one member in leaves every other property read unchanged. */
  lemma {:induction false} LookupPutOther(fs: seq<(string, J)>, k: string, v: J, k': string)
    requires k' != k
    ensures Lookup(Put(fs, k, v), k') == Lookup(fs, k')
  {
    if |fs| > 0 && fs[0].0 != k {
      var r := Put(fs, k, v);
      assert r[1..] == Put(fs[1..], k, v);
      LookupPutOther(fs[1..], k, v, k');
    }
  }

  /** Rebuilding an object member by member with `f` (as
      `result[key] = f(value)` over `Object.entries` does) turns every property
      read into `f` of the original read. */
  lemma {:induction false} LookupMapped(fs: seq<(string, J)>, gs: seq<(string, J)>, f: J -> J, k: string)
    requires |gs| == |fs|
    requires forall i | 0 <= i < |fs| :: gs[i] == (fs[i].0, f(fs[i].1))
    ensures Lookup(fs, k).None? ==> Lookup(gs, k).None?
    ensures Lookup(fs, k).Some? ==> Lookup(gs, k) == Some(f(Lookup(fs, k).value))
  {
    if |fs| > 0 && fs[0].0 != k {
      LookupMapped(fs[1..], gs[1..], f, k);
    }
  }

  /** Dropping the undefined members keeps the first member named `k` when it
      is defined. */
  lemma {:induction false} LookupDefined(fs: seq<(string, J)>, k: string)
    requires Lookup(fs, k).Some? && Lookup(fs, k).value != JUndef
    ensures Lookup(Defined(fs), k) == Lookup(fs, k)
  {
    if fs[0].0 != k {
      LookupDefined(fs[1..], k);
      if fs[0].1 != JUndef {
        assert Defined(fs) == [fs[0]] + Defined(fs[1..]);
        assert Defined(fs)[1..] == Defined(fs[1..]);
      }
    }
  }

  /** A defined property survives a trip through JSON text, encoded. */
  lemma EncodeLookup(fs: seq<(string, J)>, k: string)
    requires !HasBig(JObj(fs))
    requires Lookup(fs, k).Some? && Lookup(fs, k).value != JUndef
    ensures !HasBig(Lookup(fs, k).value)
    ensures Lookup(Encode(JObj(fs)).fields, k) == Some(Encode(Lookup(fs, k).value))
  {
    var kept := Defined(fs);
    var gs := Encode(JObj(fs)).fields;
    EncodedMembers(fs);
    LookupDefined(fs, k);
    assert Lookup(kept, k) == Lookup(fs, k);
    LookupEncoded(kept, gs, k);
  }

  lemma {:induction false} LookupEncoded(fs: seq<(string, J)>, gs: seq<(string, J)>, k: string)
    requires |gs| == |fs|
    requires forall i | 0 <= i < |fs| :: !HasBig(fs[i].1) && gs[i] == (fs[i].0, Encode(fs[i].1))
    requires Lookup(fs, k).Some?
    ensures !HasBig(Lookup(fs, k).value) && Lookup(gs, k) == Some(Encode(Lookup(fs, k).value))
  {
    if fs[0].0 != k {
      LookupEncoded(fs[1..], gs[1..], k);
    }
  }

  /** The members of an encoded object are the defined members, encoded. */
  lemma EncodedMembers(fs: seq<(string, J)>)
    requires !HasBig(JObj(fs))
    ensures var kept := Defined(fs);
      var gs := Encode(JObj(fs)).fields;
      |gs| == |kept| &&
      forall i | 0 <= i < |kept| :: !HasBig(kept[i].1) && gs[i] == (kept[i].0, Encode(kept[i].1))
  {
    var kept := Defined(fs);
    assert Encode(JObj(fs)).fields == seq(|kept|, i requires 0 <= i < |kept| => (kept[i].0, Encode(kept[i].1)));
    forall i | 0 <= i < |kept|
      ensures !HasBig(kept[i].1)
    {
      assert kept[i] in fs;
    }
  }

  /** The members `JSON.stringify` writes out: those whose value is not undefined. */
  function Defined(fs: seq<(string, J)>): (r: seq<(string, J)>)
    ensures forall p | p in r :: p in fs && p.1 != JUndef
    ensures forall i | 0 <= i < |fs| && fs[i].1 != JUndef :: fs[i] in r
  {
    if |fs| == 0 then []
    else if fs[0].1 == JUndef then Defined(fs[1..])
    else [fs[0]] + Defined(fs[1..])
  }

  /** Dropping undefined members works part by part, so the kept members stay
      in their order. */
  lemma {:induction false} DefinedConcat(xs: seq<(string, J)>, ys: seq<(string, J)>)
    ensures Defined(xs + ys) == Defined(xs) + Defined(ys)
  {
    if |xs| == 0 {
      assert xs + ys == ys;
    } else {
      var zs := xs + ys;
      assert zs[0] == xs[0] && zs[1..] == xs[1..] + ys;
      DefinedConcat(xs[1..], ys);
      if xs[0].1 != JUndef {
        calc {
          Defined(zs);
          [xs[0]] + Defined(xs[1..] + ys);
          [xs[0]] + (Defined(xs[1..]) + Defined(ys));
          ([xs[0]] + Defined(xs[1..])) + Defined(ys);
        }
      }
    }
  }

  /** Every defined member is kept as many times as it occurs, and no
      undefined one is kept. */
  lemma {:induction false} DefinedCounts(fs: seq<(string, J)>)
    ensures forall p :: multiset(Defined(fs))[p] == if p.1 != JUndef then multiset(fs)[p] else 0
  {
    if |fs| > 0 {
      DefinedCounts(fs[1..]);
      assert fs == [fs[0]] + fs[1..];
    }
  }

  /** `JSON.parse(JSON.stringify(v))` for a value without bigints: a Date
      becomes its ISO text, an undefined array element becomes null, an
      undefined object member is dropped. `ToWire` only applies it to values
      without bigints, so the number it gives a bigint stands for nothing. */
  function Encode(v: J): (r: JsonValue)
  {
    match v
    case JUndef => JNull
    case JBig(i) => JNum(i)       // never reached through ToWire: stringify throws first
    case JDate(iso) => JStr(iso)
    case JArr(xs) => JArr(seq(|xs|, i requires 0 <= i < |xs| => Encode(xs[i])))
    case JObj(fs) =>
      var kept := Defined(fs);
      JObj(seq(|kept|, i requires 0 <= i < |kept| => (kept[i].0, Encode(kept[i].1))))
    case _ => v
  }

  /** One trip through JSON text, at the top of a value: null, booleans,
      numbers and strings come back unchanged; a Date comes back as its ISO
      text; an array keeps its length, an undefined element reading back as
      null; an object keeps exactly the names of its defined members, in
      order. */
  lemma EncodeShape(v: J)
    ensures v.JNull? || v.JBool? || v.JNum? || v.JStr? ==> Encode(v) == v
    ensures v.JDate? ==> Encode(v) == JStr(v.iso)
    ensures v.JArr? ==> Encode(v).JArr? && |Encode(v).items| == |v.items|
    ensures v.JArr? ==> forall i | 0 <= i < |v.items| && v.items[i] == JUndef :: Encode(v).items[i] == JNull
    ensures v.JObj? ==> Encode(v).JObj? && FieldNames(Encode(v).fields) == FieldNames(Defined(v.fields))
  {
    if v.JObj? {
      var kept := Defined(v.fields);
      assert Encode(v).fields == seq(|kept|, i requires 0 <= i < |kept| => (kept[i].0, Encode(kept[i].1)));
    }
  }

  /** What a reader gets back from the JSON text a writer stores: None when
      `JSON.stringify` throws (a bigint anywhere) or returns no text at all
      (`undefined` at the top). */
  function ToWire(v: J): (r: Option<JsonValue>)
    ensures r.None? <==> v == JUndef || HasBig(v)
  {
    if v == JUndef || HasBig(v) then None else Some(Encode(v))
  }

  lemma {:induction false} DefinedKeepsAll(fs: seq<(string, J)>)
    requires forall i | 0 <= i < |fs| :: fs[i].1 != JUndef
    ensures Defined(fs) == fs
  {
    if |fs| > 0 {
      DefinedKeepsAll(fs[1..]);
      assert fs == [fs[0]] + fs[1..];
    }
  }

  /** A JSON value survives a trip through JSON text unchanged. */
  lemma {:induction false} EncodeFixesJsonValues(v: J)
    requires IsJsonValue(v)
    ensures !HasBig(v) && Encode(v) == v
  {
    match v
    case JArr(xs) =>
      forall i | 0 <= i < |xs|
        ensures !HasBig(xs[i]) && Encode(xs[i]) == xs[i]
      {
        EncodeFixesJsonValues(xs[i]);
      }
      assert Encode(v).items == xs;
    case JObj(fs) =>
      forall i | 0 <= i < |fs|
        ensures !HasBig(fs[i].1) && Encode(fs[i].1) == fs[i].1
      {
        EncodeFixesJsonValues(fs[i].1);
      }
      DefinedKeepsAll(fs);
      assert Encode(v).fields == fs;
    case _ =>
  }

  /** Writing back what was read stores the same JSON value again. */
  lemma ToWireOfJsonValue(w: JsonValue)
    ensures ToWire(w) == Some(w)
  {
    EncodeFixesJsonValues(w);
  }
}
