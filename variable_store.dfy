/** The variable list kept by the variables provider and the pure
    transformations its operations apply to it. */
module VariableStore {
  import opened Wrappers

  /** A user-defined `{name, value}` record. */
  datatype Variable = Variable(name: string, value: string)

  /** Some entry of `vars` is called `name`. */
  predicate HasName(vars: seq<Variable>, name: string) {
    exists i :: 0 <= i < |vars| && vars[i].name == name
  }

  /** No two entries share a name. */
  predicate DistinctNames(vars: seq<Variable>) {
    forall i, j :: 0 <= i < j < |vars| ==> vars[i].name != vars[j].name
  }

  /** The value of the first entry called `name`, or `None` when there is none. */
  function Lookup(vars: seq<Variable>, name: string): (r: Option<string>)
    ensures r.None? <==> !HasName(vars, name)
    ensures r.Some? ==>
      exists i :: 0 <= i < |vars| && vars[i].name == name && vars[i].value == r.value &&
        forall j :: 0 <= j < i ==> vars[j].name != name
  {
    if vars == [] then None
    else if vars[0].name == name then Some(vars[0].value)
    else
      var r := Lookup(vars[1..], name);
      assert forall i :: 0 <= i < |vars| - 1 ==> vars[1..][i] == vars[i + 1];
      r
  }

  /** Every entry called `v.name` takes the value `v.value`; the others stay. */
  function Overwrite(vars: seq<Variable>, v: Variable): (r: seq<Variable>)
    ensures |r| == |vars|
    ensures forall i :: 0 <= i < |vars| ==> r[i].name == vars[i].name
    ensures forall i :: 0 <= i < |vars| && vars[i].name != v.name ==> r[i] == vars[i]
    ensures forall i :: 0 <= i < |vars| && vars[i].name == v.name ==> r[i].value == v.value
  {
    if vars == [] then []
    else
      var head := if vars[0].name == v.name then vars[0].(value := v.value) else vars[0];
      [head] + Overwrite(vars[1..], v)
  }

  /** The upsert behind `addVariable`: an existing name has its value
      replaced where it stands, a new name is appended at the end. */
  function Upsert(vars: seq<Variable>, v: Variable): (r: seq<Variable>)
    ensures HasName(vars, v.name) ==>
      && |r| == |vars|
      && (forall i :: 0 <= i < |vars| ==> r[i].name == vars[i].name)
      && (forall i :: 0 <= i < |vars| && vars[i].name != v.name ==> r[i] == vars[i])
      && (forall i :: 0 <= i < |vars| && vars[i].name == v.name ==> r[i].value == v.value)
    ensures !HasName(vars, v.name) ==> |r| == |vars| + 1 && r[..|vars|] == vars && r[|vars|] == v
  {
    if HasName(vars, v.name) then Overwrite(vars, v) else vars + [v]
  }

  /** The filter behind `removeVariable`: drops every entry called `name`. */
  function Without(vars: seq<Variable>, name: string): (r: seq<Variable>)
    ensures forall x :: x in r <==> x in vars && x.name != name
    ensures !HasName(vars, name) ==> r == vars
    ensures |r| <= |vars|
  {
    if vars == [] then []
    else if vars[0].name == name then Without(vars[1..], name)
    else [vars[0]] + Without(vars[1..], name)
  }

  /** After an upsert, the name looks up to the new value and every other
      name looks up as before. */
  lemma LookupAfterUpsert(vars: seq<Variable>, v: Variable, name: string)
    ensures Lookup(Upsert(vars, v), name) == if name == v.name then Some(v.value) else Lookup(vars, name)
  {
    var r := Upsert(vars, v);
    if name == v.name {
      FirstMatchIs(r, name, if HasName(vars, name) then FirstIndexOf(vars, name) else |vars|, v.value);
    } else if HasName(vars, name) {
      var k := FirstIndexOf(vars, name);
      FirstMatchIs(r, name, k, vars[k].value);
      FirstMatchIs(vars, name, k, vars[k].value);
    } else {
      assert !HasName(r, name);
    }
  }

  /** Upserting keeps the names pairwise distinct. */
  lemma UpsertKeepsDistinct(vars: seq<Variable>, v: Variable)
    requires DistinctNames(vars)
    ensures DistinctNames(Upsert(vars, v))
  {
  }

  /** Upserting the same record twice changes nothing the second time. */
  lemma UpsertIdempotent(vars: seq<Variable>, v: Variable)
    ensures Upsert(Upsert(vars, v), v) == Upsert(vars, v)
  {
    var r := Upsert(vars, v);
    assert HasName(r, v.name) by {
      if !HasName(vars, v.name) { assert r[|vars|].name == v.name; }
    }
    var r2 := Upsert(r, v);
    assert forall i :: 0 <= i < |r| ==> r2[i] == r[i] by {
      forall i | 0 <= i < |r| ensures r2[i] == r[i] {
        if r[i].name == v.name {
          if i < |vars| && HasName(vars, v.name) {
            assert r[i] == Variable(vars[i].name, v.value);
          }
        }
      }
    }
  }

  /** After a removal the name is unknown and every other name looks up as before. */
  lemma LookupAfterRemove(vars: seq<Variable>, removed: string, name: string)
    ensures Lookup(Without(vars, removed), name) == if name == removed then None else Lookup(vars, name)
  {
    if vars != [] && vars[0].name != removed {
      LookupAfterRemove(vars[1..], removed, name);
      assert Without(vars, removed)[1..] == Without(vars[1..], removed);
    } else if vars != [] {
      LookupAfterRemove(vars[1..], removed, name);
    }
  }

  /** Removal keeps the surviving entries in their original order: it
      distributes over concatenation. */
  lemma {:induction false} WithoutAppend(a: seq<Variable>, b: seq<Variable>, name: string)
    ensures Without(a + b, name) == Without(a, name) + Without(b, name)
  {
    if a == [] {
      assert a + b == b;
    } else {
      assert (a + b)[1..] == a[1..] + b;
      WithoutAppend(a[1..], b, name);
    }
  }

  /** Removal keeps the names pairwise distinct. */
  lemma {:induction false} WithoutKeepsDistinct(vars: seq<Variable>, name: string)
    requires DistinctNames(vars)
    ensures DistinctNames(Without(vars, name))
  {
    if vars != [] {
      WithoutKeepsDistinct(vars[1..], name);
      var rest := Without(vars[1..], name);
      if vars[0].name != name {
        assert forall x :: x in rest ==> x in vars[1..];
        assert forall x :: x in vars[1..] ==> x.name != vars[0].name;
      }
    }
  }

  /** The index of the first entry called `name`. */
  function FirstIndexOf(vars: seq<Variable>, name: string): (k: nat)
    requires HasName(vars, name)
    ensures k < |vars| && vars[k].name == name
    ensures forall j :: 0 <= j < k ==> vars[j].name != name
  {
    if vars[0].name == name then 0
    else
      assert HasName(vars[1..], name) by {
        var i :| 0 <= i < |vars| && vars[i].name == name;
        assert vars[1..][i - 1] == vars[i];
      }
      1 + FirstIndexOf(vars[1..], name)
  }

  /** When entry `k` is the first one called `name`, the lookup yields its value. */
  lemma {:induction false} FirstMatchIs(vars: seq<Variable>, name: string, k: nat, value: string)
    requires k < |vars| && vars[k].name == name && vars[k].value == value
    requires forall j :: 0 <= j < k ==> vars[j].name != name
    ensures Lookup(vars, name) == Some(value)
  {
    if k > 0 {
      FirstMatchIs(vars[1..], name, k - 1, value);
    }
  }
}
