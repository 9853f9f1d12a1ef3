/**
 * The plain JavaScript objects the pipeline passes around as path-to-hash
 * dictionaries, and the error results of its promises.
 */
module JsObjects {

  /** A promise that resolves with a value or rejects with an `AppError` message. */
  datatype Result<T> = Ok(value: T) | Err(message: string)

  /** The rejection when a package has no file to work on. */
  const EmptyFiles := "empty files"

  /**
   * A plain object with string values: its own enumerable keys in the order
   * `_.forIn` visits them (insertion order), and the value under each key.
   */
  datatype JsObject = JsObject(keys: seq<string>, values: map<string, string>) {
    predicate Valid() {
      && (forall i, j :: 0 <= i < j < |keys| ==> keys[i] != keys[j])
      && (forall k :: k in values ==> k in keys)
      && (forall k :: k in keys ==> k in values)
    }
  }

  /**
   * The one key a plain object does not store on assignment: `o[k] = v`
   * with this key calls the inherited `__proto__` setter, which ignores a
   * string value.
   */
  const ProtoKey := "__proto__"

  /** `{}` */
  const Empty := JsObject([], map[])

  /**
   * `o[k] = v` with a string `v`: a new key is appended to the enumeration
   * order, an existing key keeps its place and only its value is
   * overwritten; `__proto__` leaves the object as it was.
   */
  function Put(o: JsObject, k: string, v: string): (r: JsObject)
    requires o.Valid()
    ensures r.Valid()
    ensures k == ProtoKey ==> r == o
    ensures k != ProtoKey ==> r.values == o.values[k := v]
    ensures k != ProtoKey && k in o.values ==> r.keys == o.keys
    ensures k != ProtoKey && k !in o.values ==> r.keys == o.keys + [k]
  {
    if k == ProtoKey then o
    else if k in o.values then JsObject(o.keys, o.values[k := v])
    else JsObject(o.keys + [k], o.values[k := v])
  }

  /** The object `{}` after `o[k] = v` for each pair `(k, v)` in turn. */
  function Assigned(pairs: seq<(string, string)>): (r: JsObject)
    ensures r.Valid()
    decreases |pairs|
  {
    if pairs == [] then Empty
    else
      var last := pairs[|pairs| - 1];
      Put(Assigned(pairs[..|pairs| - 1]), last.0, last.1)
  }

  /** Assigning one more pair is one more `Put`. */
  lemma AssignedStep(pairs: seq<(string, string)>, i: nat)
    requires i < |pairs|
    ensures Assigned(pairs[..i + 1]) == Put(Assigned(pairs[..i]), pairs[i].0, pairs[i].1)
  {
    assert pairs[..i + 1][..i] == pairs[..i];
  }

  /** Every assigned key other than `__proto__` is present. */
  lemma {:induction false} AssignedHasKey(pairs: seq<(string, string)>, j: nat)
    requires j < |pairs| && pairs[j].0 != ProtoKey
    ensures pairs[j].0 in Assigned(pairs).values
    decreases |pairs|
  {
    if j < |pairs| - 1 {
      AssignedHasKey(pairs[..|pairs| - 1], j);
    }
  }

  /** Assigning never stores `__proto__` and adds at most one key per assignment. */
  lemma {:induction false} AssignedSize(pairs: seq<(string, string)>)
    ensures ProtoKey !in Assigned(pairs).values
    ensures |Assigned(pairs).keys| <= |pairs|
    decreases |pairs|
  {
    if pairs != [] {
      AssignedSize(pairs[..|pairs| - 1]);
    }
  }

  /** Every stored entry is one of the assigned pairs. */
  lemma {:induction false} AssignedEntryOf(pairs: seq<(string, string)>, k: string) returns (j: nat)
    requires k in Assigned(pairs).values
    ensures j < |pairs| && pairs[j] == (k, Assigned(pairs).values[k])
    ensures k != ProtoKey
    decreases |pairs|
  {
    var last := pairs[|pairs| - 1];
    if last.0 == k && k != ProtoKey {
      j := |pairs| - 1;
    } else {
      j := AssignedEntryOf(pairs[..|pairs| - 1], k);
    }
  }

  /** A pair whose key no later pair assigns again leaves its value: the last write wins. */
  lemma {:induction false} AssignedLastWins(pairs: seq<(string, string)>, j: nat)
    requires j < |pairs| && pairs[j].0 != ProtoKey
    requires forall m :: j < m < |pairs| ==> pairs[m].0 != pairs[j].0
    ensures pairs[j].0 in Assigned(pairs).values
    ensures Assigned(pairs).values[pairs[j].0] == pairs[j].1
    decreases |pairs|
  {
    var init := pairs[..|pairs| - 1];
    if j < |init| {
      AssignedLastWins(init, j);
    }
  }

  /**
   * Two runs assigning the same keys in the same order, with the same values
   * except possibly under `key`, end with the same keys and agree off `key`.
   */
  lemma {:induction false} AssignedAgreeOffKey(p1: seq<(string, string)>, p2: seq<(string, string)>, key: string)
    requires |p1| == |p2|
    requires forall j :: 0 <= j < |p1| ==> p1[j].0 == p2[j].0
    requires forall j :: 0 <= j < |p1| && p1[j].0 != key ==> p1[j].1 == p2[j].1
    ensures Assigned(p1).values.Keys == Assigned(p2).values.Keys
    ensures forall k :: k in Assigned(p1).values && k != key ==> Assigned(p1).values[k] == Assigned(p2).values[k]
    decreases |p1|
  {
    if p1 != [] {
      AssignedAgreeOffKey(p1[..|p1| - 1], p2[..|p2| - 1], key);
    }
  }
}
