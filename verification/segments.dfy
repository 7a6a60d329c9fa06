/**
 * The segment registry: named lists of host addresses.
 *
 * Merging a host list into an existing segment is not a set union. `criarSegmento` walks
 * the segment's list while extending it, appending the whole input once for every existing
 * entry that the input does not contain, so the merged segment is
 * `old + input + ... + input` with one copy of `input` per missing entry.
 */
module Segments {
  import opened Results

  type Host = string
  type Name = string
  type Registry = map<Name, seq<Host>>

  datatype SegmentError = NoSuchSegment(name: Name) | NotAMember(name: Name, host: Host)

  /** The number of entries of `members`, counted with repetition, that `input` lacks. */
  function Missing(members: seq<Host>, input: seq<Host>): (m: nat)
    ensures m <= |members|
  {
    if members == [] then 0
    else Missing(members[..|members| - 1], input) + (if members[|members| - 1] in input then 0 else 1)
  }

  /** `n` copies of `s`, one after the other. */
  function Repeat(s: seq<Host>, n: nat): seq<Host>
  {
    if n == 0 then [] else Repeat(s, n - 1) + s
  }

  /** The segment that results from merging `input` into the existing list `members`. */
  function Merge(members: seq<Host>, input: seq<Host>): seq<Host>
  {
    members + Repeat(input, Missing(members, input))
  }

  lemma {:induction false} MissingZeroIff(members: seq<Host>, input: seq<Host>)
    ensures Missing(members, input) == 0 <==> forall i :: 0 <= i < |members| ==> members[i] in input
  {
    if members != [] {
      var init := members[..|members| - 1];
      MissingZeroIff(init, input);
      assert forall i :: 0 <= i < |init| ==> init[i] == members[i];
    }
  }

  lemma {:induction false} MissingPrefix(members: seq<Host>, input: seq<Host>, i: nat)
    requires i <= |members|
    ensures Missing(members[..i], input) <= Missing(members, input)
    decreases |members|
  {
    if i < |members| {
      var init := members[..|members| - 1];
      assert members[..i] == init[..i];
      MissingPrefix(init, input, i);
    } else {
      assert members[..i] == members;
    }
  }

  lemma {:induction false} RepeatMembers(s: seq<Host>, n: nat, h: Host)
    ensures h in Repeat(s, n) <==> n > 0 && h in s
  {
    if n > 0 {
      RepeatMembers(s, n - 1, h);
    }
  }

  lemma {:induction false} RepeatPrefix(s: seq<Host>, k: nat, n: nat)
    requires k <= n
    ensures Repeat(s, k) <= Repeat(s, n)
  {
    if k < n {
      RepeatPrefix(s, k, n - 1);
    }
  }

  /**
   * The merged segment holds exactly the old hosts, plus the input's hosts when at least
   * one existing entry is missing from the input. In particular, new input hosts are NOT
   * added when every existing member already appears in the input.
   */
  lemma MergeMembers(members: seq<Host>, input: seq<Host>, h: Host)
    ensures h in Merge(members, input) <==>
              h in members || (h in input && exists i :: 0 <= i < |members| && members[i] !in input)
  {
    RepeatMembers(input, Missing(members, input), h);
    MissingZeroIff(members, input);
  }

  /** The segment is left exactly as it was iff the input adds nothing: either every existing
      member is in the input, or the input is empty. */
  lemma {:induction false} MergeUnchangedIff(members: seq<Host>, input: seq<Host>)
    ensures Merge(members, input) == members <==>
              (input == [] || forall i :: 0 <= i < |members| ==> members[i] in input)
  {
    MissingZeroIff(members, input);
    RepeatEmpty(input, Missing(members, input));
  }

  lemma {:induction false} RepeatEmpty(s: seq<Host>, n: nat)
    ensures Repeat(s, n) == [] <==> n == 0 || s == []
  {
    if n > 0 {
      RepeatEmpty(s, n - 1);
    }
  }

  /**
   * The merge as `criarSegmento` performs it: iterate over the segment's live list, and each
   * time the current entry is not in the input, extend the list being iterated with the
   * whole input. Appended entries come from the input, so they never extend it again.
   */
  method MergeLive(members: seq<Host>, input: seq<Host>) returns (live: seq<Host>)
    ensures live == Merge(members, input)
  {
    live := members;
    var i := 0;
    ghost var final := Merge(members, input);
    while i < |live|
      invariant members <= live
      invariant i <= |live|
      invariant live == members + Repeat(input, Missing(members[..if i < |members| then i else |members|], input))
      invariant live <= final
      decreases |final| - i
    {
      if i < |members| {
        assert members[..i + 1][..i] == members[..i];
        assert live[i] == members[i];
        MissingPrefix(members, input, i + 1);
        RepeatPrefix(input, Missing(members[..i + 1], input), Missing(members, input));
      } else {
        RepeatMembers(input, Missing(members, input), live[i]);
        assert members[..|members|] == members;
        assert live[i] in input;
      }
      if live[i] !in input {
        live := live + input;
      }
      i := i + 1;
    }
    assert members[..|members|] == members;
  }

  /**
   * Creates or merges every segment of `data`: a name not yet registered gets exactly its
   * input list, a registered name gets the input merged in, and names absent from `data`
   * are untouched.
   */
  function CreateOrMerge(reg: Registry, data: map<Name, seq<Host>>): (r: Registry)
    ensures r.Keys == reg.Keys + data.Keys
    ensures forall k :: k in data && k !in reg ==> r[k] == data[k]
    ensures forall k :: k in data && k in reg ==> reg[k] <= r[k] && r[k] == Merge(reg[k], data[k])
    ensures forall k :: k in reg && k !in data ==> r[k] == reg[k]
  {
    map k | k in reg.Keys + data.Keys ::
      if k !in data then reg[k]
      else if k in reg then Merge(reg[k], data[k])
      else data[k]
  }

  /** Deletes a segment; deleting an absent name changes nothing. */
  function Delete(reg: Registry, name: Name): (r: Registry)
    ensures r.Keys == reg.Keys - {name}
    ensures forall k :: k in r ==> r[k] == reg[k]
    ensures name !in reg ==> r == reg
  {
    reg - {name}
  }

  /** The position of the first occurrence of `h` in `s`. */
  function FirstIndex(s: seq<Host>, h: Host): (i: nat)
    requires h in s
    ensures i < |s| && s[i] == h && h !in s[..i]
  {
    if s[0] == h then 0
    else
      var j := FirstIndex(s[1..], h);
      assert s[..j + 1] == [s[0]] + s[1..][..j];
      j + 1
  }

  /** Removes the first occurrence of `h` from `s`. */
  function RemoveFirst(s: seq<Host>, h: Host): (r: seq<Host>)
    requires h in s
    ensures exists i :: 0 <= i < |s| && s[i] == h && h !in s[..i] && r == s[..i] + s[i + 1..]
    ensures multiset(r) + multiset{h} == multiset(s)
  {
    var i := FirstIndex(s, h);
    assert s == s[..i] + [s[i]] + s[i + 1..];
    s[..i] + s[i + 1..]
  }

  /**
   * Removes one host from one segment. Fails when the segment is not registered or the
   * host is not one of its members; otherwise only the first occurrence is removed and
   * every other segment is left as it was.
   */
  function RemoveHost(reg: Registry, name: Name, h: Host): (r: Result<Registry, SegmentError>)
    ensures r == Err(NoSuchSegment(name)) <==> name !in reg
    ensures r == Err(NotAMember(name, h)) <==> name in reg && h !in reg[name]
    ensures r.Ok? <==> name in reg && h in reg[name]
    ensures r.Ok? ==> && r.value.Keys == reg.Keys
                      && r.value[name] == RemoveFirst(reg[name], h)
                      && |r.value[name]| + 1 == |reg[name]|
                      && multiset(r.value[name]) + multiset{h} == multiset(reg[name])
                      && forall k :: k in reg && k != name ==> r.value[k] == reg[k]
  {
    if name !in reg then Err(NoSuchSegment(name))
    else if h !in reg[name] then Err(NotAMember(name, h))
    else Ok(reg[name := RemoveFirst(reg[name], h)])
  }

  /** Merging a host into a segment whose members all appear in the input adds nothing,
      so a host sent together with the existing members is never registered. */
  lemma MergeCanSkipNewHosts()
    ensures Merge(["h2"], ["h2", "h3"]) == ["h2"]
  {
  }

  /** Merging the same list twice duplicates its hosts, and each missing member adds a copy. */
  lemma MergeCanDuplicate()
    ensures Merge(["h2"], ["h3"]) == ["h2", "h3"]
    ensures Merge(["h2", "h3"], ["h3"]) == ["h2", "h3", "h3"]
    ensures Merge(["h1", "h2"], ["h3"]) == ["h1", "h2", "h3", "h3"]
  {
    var a: seq<Host> := ["h2"];
    var b: seq<Host> := ["h2", "h3"];
    var c: seq<Host> := ["h1", "h2"];
    var d: seq<Host> := ["h1"];
    assert a[..0] == [] && d[..0] == [];
    assert b[..1] == a && c[..1] == d;
    assert "h2" !in ["h3"] && "h1" !in ["h3"] && "h3" in ["h3"];
  }
}
