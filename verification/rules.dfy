/**
 * The rule store. A rule is a JSON object kept as an ordered list of (field, value) pairs
 * with distinct field names, in the order the object was received.
 *
 * Storing a rule payload keys it by the NAMES of its first two fields: the first stored
 * rule whose values under those two names equal the payload's has only its "acao" field
 * overwritten; when no stored rule matches, the payload is appended. Matching compares
 * field by field, so a rule {h1: A, h2: B} does not match a payload {h1: B, h2: A}.
 */
module Rules {
  import opened Results

  type Payload = seq<(string, string)>

  /** The field holding a rule's action. */
  const ActionField: string := "acao"

  datatype RuleError =
    | TooFewFields                          // the payload has fewer than two fields
    | MissingField(rule: nat, field: string) // a stored rule lacks one of the key fields
    | MissingAction                         // a rule matched but the payload has no "acao"

  /** A JSON object never repeats a field name. */
  predicate DistinctFields(p: Payload)
  {
    forall i, j :: 0 <= i < j < |p| ==> p[i].0 != p[j].0
  }

  /** Whether `p` has a field named `k`. */
  predicate HasField(p: Payload, k: string)
  {
    Get(p, k).Some?
  }

  /** The value of field `k` in `p`, if any. */
  function Get(p: Payload, k: string): Option<string>
  {
    if p == [] then None else if p[0].0 == k then Some(p[0].1) else Get(p[1..], k)
  }

  lemma {:induction false} GetPresent(p: Payload, i: nat)
    requires DistinctFields(p) && i < |p|
    ensures Get(p, p[i].0) == Some(p[i].1)
  {
    if i > 0 {
      assert DistinctFields(p[1..]) by {
        forall a, b | 0 <= a < b < |p[1..]| ensures p[1..][a].0 != p[1..][b].0 {
          assert p[1..][a] == p[a + 1] && p[1..][b] == p[b + 1];
        }
      }
      GetPresent(p[1..], i - 1);
    }
  }

  /**
   * `p` with field `k` set to `v`, as a dictionary assignment does: an existing field keeps
   * its place and gets the new value, a new field is added at the end.
   */
  function SetField(p: Payload, k: string, v: string): (r: Payload)
    ensures Get(r, k) == Some(v)
    ensures forall k' :: k' != k ==> Get(r, k') == Get(p, k')
    ensures Get(p, k).Some? ==> |r| == |p| && forall i :: 0 <= i < |p| ==> r[i].0 == p[i].0
    ensures Get(p, k).None? ==> r == p + [(k, v)]
    ensures Get(p, k) == Some(v) ==> r == p
  {
    if p == [] then [(k, v)]
    else if p[0].0 == k then [(k, v)] + p[1..]
    else [p[0]] + SetField(p[1..], k, v)
  }

  lemma {:induction false} SetFieldKeepsDistinct(p: Payload, k: string, v: string)
    requires DistinctFields(p)
    ensures DistinctFields(SetField(p, k, v))
  {
    var r := SetField(p, k, v);
    if Get(p, k).None? {
      GetAbsent(p, k);
      assert r == p + [(k, v)];
    }
  }

  lemma {:induction false} GetAbsent(p: Payload, k: string)
    requires Get(p, k).None?
    ensures forall i :: 0 <= i < |p| ==> p[i].0 != k
  {
    if p != [] {
      GetAbsent(p[1..], k);
      assert forall i :: 1 <= i < |p| ==> p[i] == p[1..][i - 1];
    }
  }

  /**
   * The test on one stored rule, with the short-circuit `and` of `criarRegra`: the rule's
   * first key field is read (an error when absent) and, only when it equals `v1`, its
   * second key field is read (an error when absent) and compared with `v2`.
   */
  function Compare(rule: Payload, k1: string, v1: string, k2: string, v2: string): Result<bool, string>
  {
    match Get(rule, k1)
    case None => Err(k1)
    case Some(a) =>
      if a != v1 then Ok(false)
      else
        match Get(rule, k2)
        case None => Err(k2)
        case Some(b) => Ok(b == v2)
  }

  /** Rule `j` is the first one, from `from` on, whose test does not come out false. */
  predicate StopsAt(rules: seq<Payload>, k1: string, v1: string, k2: string, v2: string, from: nat, j: nat)
  {
    && from <= j < |rules|
    && Compare(rules[j], k1, v1, k2, v2) != Ok(false)
    && forall l :: from <= l < j ==> Compare(rules[l], k1, v1, k2, v2) == Ok(false)
  }

  /**
   * Scans the stored rules from position `from`: the index of the first rule that matches,
   * None when every rule's test comes out false, or the error of the first rule whose test
   * reads a missing field.
   */
  function FindMatch(rules: seq<Payload>, k1: string, v1: string, k2: string, v2: string, from: nat)
    : (r: Result<Option<nat>, RuleError>)
    requires from <= |rules|
    ensures r.Ok? && r.value.Some? ==>
              StopsAt(rules, k1, v1, k2, v2, from, r.value.value) && Compare(rules[r.value.value], k1, v1, k2, v2) == Ok(true)
    ensures r == Ok(None) <==> forall l :: from <= l < |rules| ==> Compare(rules[l], k1, v1, k2, v2) == Ok(false)
    ensures r.Err? ==>
              && r.error.MissingField?
              && StopsAt(rules, k1, v1, k2, v2, from, r.error.rule)
              && Compare(rules[r.error.rule], k1, v1, k2, v2) == Err(r.error.field)
    decreases |rules| - from
  {
    if from == |rules| then Ok(None)
    else
      match Compare(rules[from], k1, v1, k2, v2)
      case Err(f) => Err(MissingField(from, f))
      case Ok(true) => Ok(Some(from))
      case Ok(false) => FindMatch(rules, k1, v1, k2, v2, from + 1)
  }

  /** The first stored rule whose test does not come out false is the one `FindMatch` reports. */
  lemma FindMatchStopsAt(rules: seq<Payload>, k1: string, v1: string, k2: string, v2: string, j: nat)
    requires StopsAt(rules, k1, v1, k2, v2, 0, j)
    ensures Compare(rules[j], k1, v1, k2, v2) == Ok(true) ==> FindMatch(rules, k1, v1, k2, v2, 0) == Ok(Some(j))
    ensures Compare(rules[j], k1, v1, k2, v2).Err? ==>
              FindMatch(rules, k1, v1, k2, v2, 0) == Err(MissingField(j, Compare(rules[j], k1, v1, k2, v2).error))
  {
    var r := FindMatch(rules, k1, v1, k2, v2, 0);
    var c := Compare(rules[j], k1, v1, k2, v2);
    if r == Ok(None) {
      assert false;
    } else {
      var i := if r.Ok? then r.value.value else r.error.rule;
      assert StopsAt(rules, k1, v1, k2, v2, 0, i);
      if i != j {
        assert false;
      }
    }
  }

  /** Rule `j` is the first stored rule matching `data` on its first two field names. */
  predicate FirstHit(rules: seq<Payload>, data: Payload, j: nat)
    requires |data| >= 2
  {
    StopsAt(rules, data[0].0, data[0].1, data[1].0, data[1].1, 0, j)
    && Compare(rules[j], data[0].0, data[0].1, data[1].0, data[1].1) == Ok(true)
  }

  /** No stored rule matches `data`, and every rule could be tested. */
  predicate NoHit(rules: seq<Payload>, data: Payload)
    requires |data| >= 2
  {
    forall l :: 0 <= l < |rules| ==> Compare(rules[l], data[0].0, data[0].1, data[1].0, data[1].1) == Ok(false)
  }

  /**
   * Stores a rule payload. With fewer than two fields it fails. Otherwise the first stored
   * rule matching the payload's first two fields gets the payload's "acao" (and nothing
   * else changes), or, when no rule matches, the payload is appended. A stored rule lacking
   * a key field that the scan reads, or a match for a payload without "acao", fails and
   * leaves the store as it was.
   */
  function Upsert(rules: seq<Payload>, data: Payload): (r: Result<seq<Payload>, RuleError>)
    ensures r == Err(TooFewFields) <==> |data| < 2
    ensures |data| >= 2 && NoHit(rules, data) ==> r == Ok(rules + [data])
    ensures forall j: nat :: |data| >= 2 && FirstHit(rules, data, j) && HasField(data, ActionField) ==>
              r.Ok? && |r.value| == |rules| && r.value[j] == SetField(rules[j], ActionField, Get(data, ActionField).value)
    ensures forall j: nat :: |data| >= 2 && FirstHit(rules, data, j) ==>
              (r == Err(MissingAction) <==> Get(data, ActionField).None?)
    ensures forall j: nat :: |data| >= 2 && FirstHit(rules, data, j) && r.Ok? ==>
              && |r.value| == |rules|
              && (forall l :: 0 <= l < |rules| && l != j ==> r.value[l] == rules[l])
              && Get(r.value[j], ActionField) == Get(data, ActionField)
              && (forall k :: k != ActionField ==> Get(r.value[j], k) == Get(rules[j], k))
    ensures r.Ok? ==> |rules| <= |r.value| <= |rules| + 1
    ensures forall j: nat ::
              (&& |data| >= 2
               && StopsAt(rules, data[0].0, data[0].1, data[1].0, data[1].1, 0, j)
               && Compare(rules[j], data[0].0, data[0].1, data[1].0, data[1].1).Err?) ==>
              r == Err(MissingField(j, Compare(rules[j], data[0].0, data[0].1, data[1].0, data[1].1).error))
    ensures r.Err? && r.error.MissingField? ==>
              |data| >= 2 && StopsAt(rules, data[0].0, data[0].1, data[1].0, data[1].1, 0, r.error.rule)
  {
    if |data| < 2 then Err(TooFewFields)
    else
      match FindMatch(rules, data[0].0, data[0].1, data[1].0, data[1].1, 0)
      case Err(e) => Err(e)
      case Ok(None) => Ok(rules + [data])
      case Ok(Some(j)) =>
        match Get(data, ActionField)
        case None => Err(MissingAction)
        case Some(a) => Ok(rules[j := SetField(rules[j], ActionField, a)])
  }

  /** Storing the same payload (with an "acao") a second time changes nothing. */
  lemma {:induction false} UpsertIdempotent(rules: seq<Payload>, data: Payload)
    requires DistinctFields(data) && Get(data, ActionField).Some?
    ensures Upsert(rules, data).Ok? ==> Upsert(Upsert(rules, data).value, data) == Upsert(rules, data)
  {
    if Upsert(rules, data).Err? {
      return;
    }
    var r1 := Upsert(rules, data).value;
    var k1, v1, k2, v2 := data[0].0, data[0].1, data[1].0, data[1].1;
    var a := Get(data, ActionField).value;
    GetPresent(data, 0);
    GetPresent(data, 1);
    match FindMatch(rules, k1, v1, k2, v2, 0)
    case Ok(None) =>
      assert r1 == rules + [data];
      assert Compare(data, k1, v1, k2, v2) == Ok(true);
      assert StopsAt(r1, k1, v1, k2, v2, 0, |rules|) by {
        forall l | 0 <= l < |rules| ensures Compare(r1[l], k1, v1, k2, v2) == Ok(false) {
          assert r1[l] == rules[l];
        }
      }
      FindMatchStopsAt(r1, k1, v1, k2, v2, |rules|);
      assert SetField(data, ActionField, a) == data;
      assert r1[|rules| := data] == r1;
    case Ok(Some(j)) =>
      var rule := SetField(rules[j], ActionField, a);
      assert r1 == rules[j := rule];
      assert Get(rule, k1) == Some(v1);
      assert Get(rule, k2) == Some(v2);
      assert StopsAt(r1, k1, v1, k2, v2, 0, j);
      FindMatchStopsAt(r1, k1, v1, k2, v2, j);
      assert r1[j := SetField(rule, ActionField, a)] == r1;
  }

  /** A stored rule keyed by the same field names with the values swapped is not a match:
      the payload is appended rather than merged. */
  lemma SwappedValuesDoNotMatch()
    ensures Upsert([[("h1", "A"), ("h2", "B"), ("acao", "bloquear")]],
                   [("h1", "B"), ("h2", "A"), ("acao", "permitir")])
         == Ok([[("h1", "A"), ("h2", "B"), ("acao", "bloquear")],
                [("h1", "B"), ("h2", "A"), ("acao", "permitir")]])
  {
    var stored: Payload := [("h1", "A"), ("h2", "B"), ("acao", "bloquear")];
    assert Get(stored, "h1") == Some("A");
    assert Compare(stored, "h1", "B", "h2", "A") == Ok(false);
    var data: Payload := [("h1", "B"), ("h2", "A"), ("acao", "permitir")];
    assert data[0] == ("h1", "B") && data[1] == ("h2", "A");
    assert NoHit([stored], data);
    assert Upsert([stored], data) == Ok([stored] + [data]);
    assert [stored] + [data] == [stored, data];
  }

  /** Matching is by field name, not by position: a payload listing the same fields in
      another order updates the stored rule. */
  lemma ReorderedFieldsMatch()
    ensures Upsert([[("h1", "A"), ("h2", "B"), ("acao", "bloquear")]],
                   [("h2", "B"), ("h1", "A"), ("acao", "permitir")])
         == Ok([[("h1", "A"), ("h2", "B"), ("acao", "permitir")]])
  {
    var stored: Payload := [("h1", "A"), ("h2", "B"), ("acao", "bloquear")];
    var data: Payload := [("h2", "B"), ("h1", "A"), ("acao", "permitir")];
    assert stored[1..] == [("h2", "B"), ("acao", "bloquear")];
    assert stored[1..][1..] == [("acao", "bloquear")];
    assert Get(stored, "h2") == Some("B");
    assert Get(stored, "h1") == Some("A");
    assert Compare(stored, "h2", "B", "h1", "A") == Ok(true);
    assert FirstHit([stored], data, 0);
    FindMatchStopsAt([stored], "h2", "B", "h1", "A", 0);
    assert data[0] == ("h2", "B") && data[1] == ("h1", "A");
    assert FindMatch([stored], "h2", "B", "h1", "A", 0) == Ok(Some(0));
    assert Upsert([stored], data) == Ok([stored][0 := SetField(stored, ActionField, "permitir")]);
    assert data[1..][1..] == [("acao", "permitir")];
    assert Get(data, ActionField) == Some("permitir");
    assert SetField(stored, ActionField, "permitir") == [("h1", "A"), ("h2", "B"), ("acao", "permitir")];
    assert [stored][0 := SetField(stored, ActionField, "permitir")] == [SetField(stored, ActionField, "permitir")];
  }
}
