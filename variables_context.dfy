/** The variables provider: the state behind the variables page and the
    substitution offered to the request editor. */
module VariablesContext {
  import opened Wrappers
  import opened VariableStore
  import opened Placeholders

  class VariablesProvider {
    /** The provider's `variables` state. */
    var variables: seq<Variable>
    /** The list last written under the `rest-client-variables` storage key. */
    ghost var stored: seq<Variable>

    /** Every change of `variables` is written back to storage. */
    ghost predicate Valid()
      reads this
    {
      stored == variables
    }

    /** Mounting loads the list found in storage, if there is one, and starts
        empty otherwise; `storedVariables` is that list, already parsed. */
    constructor (storedVariables: Option<seq<Variable>>)
      ensures Valid()
      ensures variables == if storedVariables.Some? then storedVariables.value else []
    {
      variables := if storedVariables.Some? then storedVariables.value else [];
      stored := variables;
    }

    /** Adds a variable, replacing the value of an existing one of the same name in place. */
    method AddVariable(v: Variable)
      requires Valid()
      modifies this
      ensures Valid()
      ensures variables == Upsert(old(variables), v)
      ensures GetVariableValue(v.name) == Some(v.value)
      ensures forall n :: n != v.name ==> GetVariableValue(n) == old(GetVariableValue(n))
      ensures DistinctNames(old(variables)) ==> DistinctNames(variables)
    {
      variables := Upsert(variables, v);
      stored := variables;
      forall n ensures Lookup(variables, n) == if n == v.name then Some(v.value) else Lookup(old(variables), n) {
        LookupAfterUpsert(old(variables), v, n);
      }
      if DistinctNames(old(variables)) {
        UpsertKeepsDistinct(old(variables), v);
      }
    }

    /** Removes every variable called `name`; nothing happens when there is none. */
    method RemoveVariable(name: string)
      requires Valid()
      modifies this
      ensures Valid()
      ensures variables == Without(old(variables), name)
      ensures GetVariableValue(name) == None
      ensures forall n :: n != name ==> GetVariableValue(n) == old(GetVariableValue(n))
      ensures DistinctNames(old(variables)) ==> DistinctNames(variables)
    {
      variables := Without(variables, name);
      stored := variables;
      forall n ensures Lookup(variables, n) == if n == name then None else Lookup(old(variables), n) {
        LookupAfterRemove(old(variables), name, n);
      }
      if DistinctNames(old(variables)) {
        WithoutKeepsDistinct(old(variables), name);
      }
    }

    /** The value of the first variable called `name`. */
    function GetVariableValue(name: string): (r: Option<string>)
      reads this
      ensures r.None? <==> !HasName(variables, name)
      ensures r.Some? ==>
        exists i :: 0 <= i < |variables| && variables[i].name == name && variables[i].value == r.value &&
          forall j :: 0 <= j < i ==> variables[j].name != name
    {
      Lookup(variables, name)
    }

    /** Scans `text` left to right, replacing each placeholder whose variable
        is known and collecting the names of the others. */
    method SubstituteVariables(text: string) returns (result: string, missingVariables: seq<string>)
      ensures Substitution(result, missingVariables) == Substitute(variables, text)
      ensures forall n :: n in missingVariables ==> GetVariableValue(n) == None
    {
      result, missingVariables := "", [];
      ghost var total := Substitute(variables, text);
      var i := 0;
      assert text[i..] == text;
      assert Concat(Substitution("", []), total) == total;
      while i < |text|
        invariant 0 <= i <= |text|
        invariant total == Concat(Substitution(result, missingVariables), Substitute(variables, text[i..]))
        decreases |text| - i
      {
        match PlaceholderPrefix(text[i..])
        case Some(n) =>
          var j := i + |n| + 4;
          SubstituteMatchAt(variables, text, i, n);
          ConcatAssoc(Substitution(result, missingVariables), Substitution(Filled(variables, n), Missed(variables, n)),
                      Substitute(variables, text[j..]));
          var value := GetVariableValue(n);
          if value.None? {
            result := result + text[i..j];
            missingVariables := missingVariables + [n];
          } else {
            assert missingVariables + [] == missingVariables;
            result := result + value.value;
          }
          i := j;
        case None =>
          SubstituteCopyAt(variables, text, i);
          ConcatAssoc(Substitution(result, missingVariables), Substitution([text[i]], []), Substitute(variables, text[i + 1..]));
          assert missingVariables + [] == missingVariables;
          result := result + [text[i]];
          i := i + 1;
      }
      assert text[i..] == [];
      assert result + "" == result;
      assert missingVariables + [] == missingVariables;
    }
  }
}
