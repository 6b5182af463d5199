/**
 * Environment-variable synchronisation (src/api/variables.ts).
 *
 * The listing of the environment's variables is passed in as the settled
 * result of `listVariablesForEnvironment`; each create or update request is
 * answered by the function parameter `respond`. The `Promise.all` join is
 * modelled as a pass over the calls in order, the first rejection winning.
 * JavaScript's `${value}` on a number is the function parameter `numText`.
 */
module Variables {
  import opened Wrappers
  import opened Subsequences

  type Sid = string

  /** A value of the environment-variables object; `Other` is any non-string, non-number value. */
  datatype EnvValue = Str(s: string) | Num(n: real) | Other

  /** One own property of the environment-variables object. */
  datatype Entry = Entry(key: string, value: EnvValue)

  /** A key/value pair to synchronise. */
  datatype Variable = Variable(key: string, value: string)

  /** A variable as listed by the service. */
  datatype VariableResource = VariableResource(sid: Sid, key: string, value: string)

  /** No key occurs twice among the entries (true of an object's own keys). */
  ghost predicate DistinctEntryKeys(env: seq<Entry>)
  {
    forall i, j :: 0 <= i < j < |env| ==> env[i].key != env[j].key
  }

  ghost predicate DistinctKeys(variables: seq<Variable>)
  {
    forall i, j :: 0 <= i < j < |variables| ==> variables[i].key != variables[j].key
  }

  /** The service identifies each listed variable by its own sid. */
  ghost predicate DistinctSids(existing: seq<VariableResource>)
  {
    forall i, j :: 0 <= i < j < |existing| ==> existing[i].sid != existing[j].sid
  }

  // ---------------------------------------------------------------------------
  // convertToVariableArray
  // ---------------------------------------------------------------------------

  predicate IsPrimitive(v: EnvValue)
  {
    v.Str? || v.Num?
  }

  /** `${value}` for a string or a number. */
  function Render(v: EnvValue, numText: real -> string): string
    requires IsPrimitive(v)
  {
    if v.Str? then v.s else numText(v.n)
  }

  /** What one entry contributes: its rendered pair when the value is a string or a number. */
  function ConvertOne(entry: Entry, numText: real -> string): seq<Variable>
  {
    if IsPrimitive(entry.value) then [Variable(entry.key, Render(entry.value, numText))] else []
  }

  /** The pairs `convertToVariableArray` produces, in key order. */
  function Converted(env: seq<Entry>, numText: real -> string): seq<Variable>
  {
    if env == [] then [] else ConvertOne(env[0], numText) + Converted(env[1..], numText)
  }

  function Keys(variables: seq<Variable>): seq<string>
  {
    seq(|variables|, i requires 0 <= i < |variables| => variables[i].key)
  }

  function EntryKeys(env: seq<Entry>): seq<string>
  {
    seq(|env|, i requires 0 <= i < |env| => env[i].key)
  }

  lemma {:induction false} ConvertedSnoc(env: seq<Entry>, entry: Entry, numText: real -> string)
    ensures Converted(env + [entry], numText) == Converted(env, numText) + ConvertOne(entry, numText)
  {
    var t := env + [entry];
    if env == [] {
      assert t == [entry] && t[1..] == [];
    } else {
      assert t[0] == env[0];
      assert t[1..] == env[1..] + [entry];
      ConvertedSnoc(env[1..], entry, numText);
    }
  }

  /** `convertToVariableArray`: push one pair per string- or number-valued key, in key order. */
  method ConvertToVariableArray(env: seq<Entry>, numText: real -> string) returns (output: seq<Variable>)
    ensures output == Converted(env, numText)
  {
    output := [];
    for i := 0 to |env|
      invariant output == Converted(env[..i], numText)
    {
      assert env[..i + 1] == env[..i] + [env[i]];
      ConvertedSnoc(env[..i], env[i], numText);
      var value := env[i].value;
      if value.Str? || value.Num? {
        output := output + [Variable(env[i].key, Render(value, numText))];
      }
    }
    assert env[..|env|] == env;
  }

  /**
   * The conversion keeps exactly the string- and number-valued entries, each
   * rendered as a string: every output pair comes from such an entry, and
   * every such entry yields its pair.
   */
  lemma {:induction false} ConvertedContents(env: seq<Entry>, numText: real -> string)
    ensures forall x :: x in Converted(env, numText) <==>
      exists i :: 0 <= i < |env| && IsPrimitive(env[i].value) &&
                  x == Variable(env[i].key, Render(env[i].value, numText))
  {
    if env != [] {
      ConvertedContents(env[1..], numText);
      var rest := Converted(env[1..], numText);
      assert Converted(env, numText) == ConvertOne(env[0], numText) + rest;
      forall x
        ensures x in Converted(env, numText) <==>
          exists i :: 0 <= i < |env| && IsPrimitive(env[i].value) &&
                      x == Variable(env[i].key, Render(env[i].value, numText))
      {
        if x in rest {
          var i :| 0 <= i < |env| - 1 && IsPrimitive(env[1..][i].value) &&
                   x == Variable(env[1..][i].key, Render(env[1..][i].value, numText));
          assert env[i + 1] == env[1..][i];
        }
        if exists i :: 0 <= i < |env| && IsPrimitive(env[i].value) &&
                       x == Variable(env[i].key, Render(env[i].value, numText)) {
          var i :| 0 <= i < |env| && IsPrimitive(env[i].value) &&
                   x == Variable(env[i].key, Render(env[i].value, numText));
          if i > 0 {
            assert env[1..][i - 1] == env[i];
          }
        }
      }
    }
  }

  /** The output keys are input keys, in key order. */
  lemma {:induction false} ConvertedKeepsKeyOrder(env: seq<Entry>, numText: real -> string)
    ensures SubsequenceOf(Keys(Converted(env, numText)), EntryKeys(env))
  {
    if env != [] {
      ConvertedKeepsKeyOrder(env[1..], numText);
      var rest := Converted(env[1..], numText);
      var keys := EntryKeys(env);
      assert keys[0] == env[0].key && keys[1..] == EntryKeys(env[1..]);
      if IsPrimitive(env[0].value) {
        var out := [Variable(env[0].key, Render(env[0].value, numText))] + rest;
        assert Converted(env, numText) == out;
        assert Keys(out)[0] == keys[0] && Keys(out)[1..] == Keys(rest);
      } else {
        assert Converted(env, numText) == rest;
        assert Keys(rest) == [] || SubsequenceOf(Keys(rest), keys[1..]);
      }
    }
  }

  /** Distinct object keys give distinct output keys. */
  lemma {:induction false} ConvertedDistinctKeys(env: seq<Entry>, numText: real -> string)
    requires DistinctEntryKeys(env)
    ensures DistinctKeys(Converted(env, numText))
  {
    if env != [] {
      ConvertedDistinctKeys(env[1..], numText);
      ConvertedContents(env[1..], numText);
      var rest := Converted(env[1..], numText);
      if IsPrimitive(env[0].value) {
        var out := [Variable(env[0].key, Render(env[0].value, numText))] + rest;
        assert Converted(env, numText) == out;
        forall j | 0 < j < |out|
          ensures out[0].key != out[j].key
        {
          assert out[j] in rest;
          var i :| 0 <= i < |env| - 1 && IsPrimitive(env[1..][i].value) &&
                   out[j] == Variable(env[1..][i].key, Render(env[1..][i].value, numText));
          assert env[1..][i] == env[i + 1];
        }
        forall i, j | 0 <= i < j < |out|
          ensures out[i].key != out[j].key
        {
          if i > 0 {
            assert out[i] == rest[i - 1] && out[j] == rest[j - 1];
          }
        }
      } else {
        assert Converted(env, numText) == rest;
      }
    }
  }

  // ---------------------------------------------------------------------------
  // setEnvironmentVariables: the per-variable decision
  // ---------------------------------------------------------------------------

  /** Index `i` holds the first listed variable whose key is `key`. */
  ghost predicate FirstKeyAt(existing: seq<VariableResource>, key: string, i: int)
  {
    0 <= i < |existing| && existing[i].key == key &&
    forall j :: 0 <= j < i ==> existing[j].key != key
  }

  /** `existingVariables.find((res) => res.key === variable.key)`. */
  function FindVariable(existing: seq<VariableResource>, key: string): (r: Option<VariableResource>)
    ensures r.None? <==> forall i :: 0 <= i < |existing| ==> existing[i].key != key
    ensures r.Some? ==> exists i :: FirstKeyAt(existing, key, i) && existing[i] == r.value
  {
    if existing == [] then None
    else if existing[0].key == key then
      assert FirstKeyAt(existing, key, 0);
      Some(existing[0])
    else
      var r := FindVariable(existing[1..], key);
      assert forall i :: FirstKeyAt(existing[1..], key, i) ==> FirstKeyAt(existing, key, i + 1);
      r
  }

  /** What the sync does for one desired variable. */
  datatype Action =
    | Create(key: string, value: string)            // registerVariableInEnvironment
    | Update(sid: Sid, key: string, value: string)  // updateVariableInEnvironment
    | Keep(sid: Sid, key: string)                   // value already identical: no request

  /**
   * The decision for one desired variable, from the first listed variable
   * with the same key: none gives a creation, an identical value gives no
   * request, a different value gives an update addressed to that variable's sid.
   */
  function Decide(variable: Variable, existing: seq<VariableResource>): (a: Action)
    ensures a.key == variable.key
    ensures a.Create? <==> forall i :: 0 <= i < |existing| ==> existing[i].key != variable.key
    ensures a.Create? ==> a.value == variable.value
    ensures a.Keep? ==> exists i :: FirstKeyAt(existing, variable.key, i) &&
                                    existing[i].sid == a.sid && existing[i].value == variable.value
    ensures a.Update? ==> a.value == variable.value &&
                          exists i :: FirstKeyAt(existing, variable.key, i) &&
                                      existing[i].sid == a.sid && existing[i].value != variable.value
  {
    match FindVariable(existing, variable.key)
    case None => Create(variable.key, variable.value)
    case Some(res) =>
      if res.value == variable.value then Keep(res.sid, variable.key)
      else Update(res.sid, variable.key, variable.value)
  }

  /** `variables.map(...)`: one decision per desired variable, in order. */
  function Plan(variables: seq<Variable>, existing: seq<VariableResource>): (plan: seq<Action>)
    ensures |plan| == |variables|
    ensures forall i :: 0 <= i < |plan| ==> plan[i].key == variables[i].key
    ensures forall i :: 0 <= i < |plan| && !plan[i].Keep? ==> plan[i].value == variables[i].value
  {
    seq(|variables|, i requires 0 <= i < |variables| => Decide(variables[i], existing))
  }

  /** The decisions that send a request, in order. */
  function Calls(plan: seq<Action>): (calls: seq<Action>)
    ensures |calls| <= |plan|
    ensures forall i :: 0 <= i < |calls| ==> !calls[i].Keep?
  {
    if plan == [] then []
    else (if plan[0].Keep? then [] else [plan[0]]) + Calls(plan[1..])
  }

  lemma {:induction false} CallsFacts(plan: seq<Action>)
    ensures SubsequenceOf(Calls(plan), plan)
    ensures forall c :: c in Calls(plan) <==> c in plan && !c.Keep?
  {
    if plan != [] {
      CallsFacts(plan[1..]);
      var rest := Calls(plan[1..]);
      assert forall c :: c in plan <==> c == plan[0] || c in plan[1..] by {
        assert plan == [plan[0]] + plan[1..];
      }
      if plan[0].Keep? {
        assert Calls(plan) == rest;
        assert rest == [] || SubsequenceOf(rest, plan[1..]);
      } else {
        var out := [plan[0]] + rest;
        assert Calls(plan) == out;
        assert out[0] == plan[0] && out[1..] == rest;
      }
    }
  }

  lemma {:induction false} NoCallsWhenAllKept(plan: seq<Action>)
    requires forall i :: 0 <= i < |plan| ==> plan[i].Keep?
    ensures Calls(plan) == []
  {
    if plan != [] {
      assert forall i :: 0 <= i < |plan| - 1 ==> plan[1..][i] == plan[i + 1];
      NoCallsWhenAllKept(plan[1..]);
    }
  }

  /**
   * Coverage and no deletion: the sync sends at most one request per desired
   * variable; each is a creation or an update carrying a desired key and
   * value, and an update is addressed to a listed variable with that key.
   */
  lemma SyncRequests(variables: seq<Variable>, existing: seq<VariableResource>)
    ensures |Calls(Plan(variables, existing))| <= |variables|
    ensures forall c :: c in Calls(Plan(variables, existing)) ==>
      (c.Create? || c.Update?) && Variable(c.key, c.value) in variables
    ensures forall c :: c in Calls(Plan(variables, existing)) && c.Update? ==>
      exists e :: e in existing && e.sid == c.sid && e.key == c.key
  {
    var plan := Plan(variables, existing);
    CallsFacts(plan);
    forall c | c in Calls(plan)
      ensures (c.Create? || c.Update?) && Variable(c.key, c.value) in variables
      ensures c.Update? ==> exists e :: e in existing && e.sid == c.sid && e.key == c.key
    {
      var i :| 0 <= i < |plan| && plan[i] == c;
      assert c == Decide(variables[i], existing);
      assert Variable(c.key, c.value) == variables[i];
      if c.Update? {
        var k :| FirstKeyAt(existing, variables[i].key, k) && existing[k].sid == c.sid;
        assert existing[k] in existing;
      }
    }
  }

  /** A decision occurs among the requests as often as in the plan, unless it is a Keep. */
  lemma {:induction false} CallsCount(plan: seq<Action>, a: Action)
    ensures multiset(Calls(plan))[a] == if a.Keep? then 0 else multiset(plan)[a]
  {
    if plan != [] {
      CallsCount(plan[1..], a);
      var head := if plan[0].Keep? then [] else [plan[0]];
      assert Calls(plan) == head + Calls(plan[1..]);
      assert multiset(Calls(plan)) == multiset(head) + multiset(Calls(plan[1..]));
      assert plan == [plan[0]] + plan[1..];
      assert multiset(plan) == multiset([plan[0]]) + multiset(plan[1..]);
    }
  }

  /** An element that differs from every other element of a sequence occurs in it once. */
  lemma OccursOnce<T>(s: seq<T>, k: nat)
    requires k < |s|
    requires forall i :: 0 <= i < |s| && i != k ==> s[i] != s[k]
    ensures multiset(s)[s[k]] == 1
  {
    var before, after := s[..k], s[k + 1..];
    assert s == before + [s[k]] + after;
    assert s[k] !in before by {
      forall i | 0 <= i < |before|
        ensures before[i] != s[k]
      {
        assert before[i] == s[i];
      }
    }
    assert s[k] !in after by {
      forall i | 0 <= i < |after|
        ensures after[i] != s[k]
      {
        assert after[i] == s[k + 1 + i];
      }
    }
    assert multiset(s) == multiset(before) + multiset([s[k]]) + multiset(after);
  }

  /** With distinct desired keys, the decision for each desired variable occurs once in the plan. */
  lemma PlanCount(variables: seq<Variable>, existing: seq<VariableResource>, k: nat)
    requires DistinctKeys(variables) && k < |variables|
    ensures multiset(Plan(variables, existing))[Decide(variables[k], existing)] == 1
  {
    var plan := Plan(variables, existing);
    forall i | 0 <= i < |plan| && i != k
      ensures plan[i] != plan[k]
    {
      assert plan[i].key == variables[i].key;
      assert plan[k].key == variables[k].key;
      assert variables[i].key != variables[k].key by {
        if i < k {
          assert variables[i].key != variables[k].key;
        } else {
          assert variables[k].key != variables[i].key;
        }
      }
    }
    OccursOnce(plan, k);
  }

  /**
   * Exactly once: with distinct desired keys, every desired variable that
   * needs a change gets exactly one request, and one that is already in sync
   * gets none.
   */
  lemma CallsPerVariable(variables: seq<Variable>, existing: seq<VariableResource>)
    requires DistinctKeys(variables)
    ensures forall v :: v in variables ==>
      multiset(Calls(Plan(variables, existing)))[Decide(v, existing)] == if Decide(v, existing).Keep? then 0 else 1
  {
    forall v | v in variables
      ensures multiset(Calls(Plan(variables, existing)))[Decide(v, existing)] == if Decide(v, existing).Keep? then 0 else 1
    {
      var k :| 0 <= k < |variables| && variables[k] == v;
      PlanCount(variables, existing, k);
      CallsCount(Plan(variables, existing), Decide(v, existing));
    }
  }

  /**
   * A listed variable whose key is not among the desired keys is never
   * addressed by a request.
   */
  lemma UntouchedVariable(variables: seq<Variable>, existing: seq<VariableResource>, e: VariableResource)
    requires DistinctSids(existing)
    requires e in existing
    requires forall v :: v in variables ==> v.key != e.key
    ensures forall c :: c in Calls(Plan(variables, existing)) ==> !(c.Update? && c.sid == e.sid)
  {
    var plan := Plan(variables, existing);
    CallsFacts(plan);
    forall c | c in Calls(plan)
      ensures !(c.Update? && c.sid == e.sid)
    {
      var i :| 0 <= i < |plan| && plan[i] == c;
      assert variables[i] in variables;
    }
  }

  /**
   * Convergence: when every desired variable's first namesake already holds
   * the desired value, the sync sends no request.
   */
  lemma AlreadySyncedSendsNothing(variables: seq<Variable>, existing: seq<VariableResource>)
    requires forall v :: v in variables ==>
      FindVariable(existing, v.key).Some? && FindVariable(existing, v.key).value.value == v.value
    ensures Calls(Plan(variables, existing)) == []
  {
    var plan := Plan(variables, existing);
    forall i | 0 <= i < |plan|
      ensures plan[i].Keep?
    {
      assert variables[i] in variables;
    }
    NoCallsWhenAllKept(plan);
  }

  // ---------------------------------------------------------------------------
  // The remote state after a sync, and a second sync
  // ---------------------------------------------------------------------------

  /** A listed variable after the requests of `plan` reached the service: updates to its sid rewrite it. */
  function UpdatedEntry(e: VariableResource, plan: seq<Action>): VariableResource
    decreases |plan|
  {
    if plan == [] then e
    else
      var next := if plan[0].Update? && plan[0].sid == e.sid
                  then VariableResource(e.sid, plan[0].key, plan[0].value) else e;
      UpdatedEntry(next, plan[1..])
  }

  /** The variables the creation requests of `plan` add, with the sids `newSid` assigns. */
  function CreatedEntries(plan: seq<Action>, newSid: string -> Sid): seq<VariableResource>
  {
    if plan == [] then []
    else
      (if plan[0].Create? then [VariableResource(newSid(plan[0].key), plan[0].key, plan[0].value)] else [])
      + CreatedEntries(plan[1..], newSid)
  }

  /** The environment's variable list after the sync's requests took effect. */
  function Applied(existing: seq<VariableResource>, plan: seq<Action>, newSid: string -> Sid): seq<VariableResource>
  {
    seq(|existing|, i requires 0 <= i < |existing| => UpdatedEntry(existing[i], plan)) + CreatedEntries(plan, newSid)
  }

  lemma {:induction false} UpdatedEntryKeepsSid(e: VariableResource, plan: seq<Action>)
    ensures UpdatedEntry(e, plan).sid == e.sid
    decreases |plan|
  {
    if plan != [] {
      var next := if plan[0].Update? && plan[0].sid == e.sid
                  then VariableResource(e.sid, plan[0].key, plan[0].value) else e;
      UpdatedEntryKeepsSid(next, plan[1..]);
    }
  }

  /** An entry that only updates with its own key address keeps its key. */
  lemma {:induction false} UpdatedEntryKeepsKey(e: VariableResource, plan: seq<Action>)
    requires forall a :: a in plan && a.Update? && a.sid == e.sid ==> a.key == e.key
    ensures UpdatedEntry(e, plan).key == e.key
    decreases |plan|
  {
    if plan != [] {
      assert plan[0] in plan;
      var next := if plan[0].Update? && plan[0].sid == e.sid
                  then VariableResource(e.sid, plan[0].key, plan[0].value) else e;
      assert forall a :: a in plan[1..] ==> a in plan;
      UpdatedEntryKeepsKey(next, plan[1..]);
    }
  }

  /** An entry no update addresses is unchanged. */
  lemma {:induction false} UpdatedEntryUntouched(e: VariableResource, plan: seq<Action>)
    requires forall a :: a in plan ==> !(a.Update? && a.sid == e.sid)
    ensures UpdatedEntry(e, plan) == e
  {
    if plan != [] {
      assert plan[0] in plan;
      assert forall a :: a in plan[1..] ==> a in plan;
      UpdatedEntryUntouched(e, plan[1..]);
    }
  }

  /** An entry that exactly one update `u` addresses takes that update's key and value. */
  lemma {:induction false} UpdatedEntryOnce(e: VariableResource, plan: seq<Action>, u: Action)
    requires u.Update? && u.sid == e.sid && u in plan
    requires forall a :: a in plan && a.Update? && a.sid == e.sid ==> a == u
    ensures UpdatedEntry(e, plan) == VariableResource(e.sid, u.key, u.value)
    decreases |plan|
  {
    assert forall a :: a in plan[1..] ==> a in plan;
    if plan[0] == u {
      var next := VariableResource(e.sid, u.key, u.value);
      if u in plan[1..] {
        UpdatedEntryOnce(next, plan[1..], u);
      } else {
        assert forall a :: a in plan[1..] ==> !(a.Update? && a.sid == next.sid);
        UpdatedEntryUntouched(next, plan[1..]);
      }
    } else {
      assert plan == [plan[0]] + plan[1..];
      assert u in plan[1..];
      UpdatedEntryOnce(e, plan[1..], u);
    }
  }

  /** The lookup in a concatenation looks in the second part only when the first has no namesake. */
  lemma {:induction false} FindVariableConcat(xs: seq<VariableResource>, ys: seq<VariableResource>, key: string)
    ensures FindVariable(xs + ys, key) == if FindVariable(xs, key).Some? then FindVariable(xs, key) else FindVariable(ys, key)
  {
    if xs != [] {
      assert (xs + ys)[0] == xs[0];
      assert (xs + ys)[1..] == xs[1..] + ys;
      FindVariableConcat(xs[1..], ys, key);
    } else {
      assert xs + ys == ys;
    }
  }

  /** Two lists with the same keys, position by position, have their first namesake at the same index. */
  lemma {:induction false} FindVariableSameKeys(xs: seq<VariableResource>, ys: seq<VariableResource>, key: string)
    requires |xs| == |ys|
    requires forall i :: 0 <= i < |xs| ==> xs[i].key == ys[i].key
    ensures FindVariable(xs, key).None? <==> FindVariable(ys, key).None?
    ensures FindVariable(xs, key).Some? ==>
      exists i :: FirstKeyAt(xs, key, i) && FindVariable(ys, key) == Some(ys[i])
  {
    if xs != [] && xs[0].key != key {
      FindVariableSameKeys(xs[1..], ys[1..], key);
      if FindVariable(xs, key).Some? {
        var i :| FirstKeyAt(xs[1..], key, i) && FindVariable(ys[1..], key) == Some(ys[1..][i]);
        assert FirstKeyAt(xs, key, i + 1);
      }
    } else if xs != [] {
      assert FirstKeyAt(xs, key, 0);
    }
  }

  /** Among the created entries, the first with a desired key is the one that variable's creation added. */
  lemma {:induction false} FindCreated(variables: seq<Variable>, existing: seq<VariableResource>, newSid: string -> Sid, k: int)
    requires DistinctKeys(variables)
    requires 0 <= k < |variables|
    requires Decide(variables[k], existing).Create?
    ensures FindVariable(CreatedEntries(Plan(variables, existing), newSid), variables[k].key).Some?
    ensures FindVariable(CreatedEntries(Plan(variables, existing), newSid), variables[k].key).value.value == variables[k].value
    decreases |variables|
  {
    var plan := Plan(variables, existing);
    var v := variables[k];
    var rest := variables[1..];
    assert plan[1..] == Plan(rest, existing);
    var head := if plan[0].Create? then [VariableResource(newSid(plan[0].key), plan[0].key, plan[0].value)] else [];
    assert CreatedEntries(plan, newSid) == head + CreatedEntries(plan[1..], newSid);
    FindVariableConcat(head, CreatedEntries(plan[1..], newSid), v.key);
    if k == 0 {
      assert FindVariable(head, v.key) == Some(VariableResource(newSid(v.key), v.key, v.value));
    } else {
      assert plan[0].key == variables[0].key != v.key;
      assert FindVariable(head, v.key).None?;
      assert rest[k - 1] == v;
      assert DistinctKeys(rest) by {
        forall i, j | 0 <= i < j < |rest| ensures rest[i].key != rest[j].key {
          assert rest[i] == variables[i + 1] && rest[j] == variables[j + 1];
        }
      }
      FindCreated(rest, existing, newSid, k - 1);
    }
  }

  /**
   * Every update in the plan is addressed to the first listed variable with
   * its key; with distinct sids that is the only entry the update touches.
   */
  lemma PlanUpdatesOwnKey(variables: seq<Variable>, existing: seq<VariableResource>, m: int)
    requires DistinctSids(existing)
    requires 0 <= m < |existing|
    ensures forall a :: a in Plan(variables, existing) && a.Update? && a.sid == existing[m].sid ==>
      a.key == existing[m].key && FirstKeyAt(existing, a.key, m)
  {
    var plan := Plan(variables, existing);
    forall a | a in plan && a.Update? && a.sid == existing[m].sid
      ensures a.key == existing[m].key && FirstKeyAt(existing, a.key, m)
    {
      var i :| 0 <= i < |plan| && plan[i] == a;
      var k :| FirstKeyAt(existing, variables[i].key, k) && existing[k].sid == a.sid;
      assert k == m;
    }
  }

  /** After the first sync, the first namesake of each desired variable holds its desired value. */
  lemma SyncedValue(variables: seq<Variable>, existing: seq<VariableResource>, newSid: string -> Sid, k: int)
    requires DistinctKeys(variables)
    requires DistinctSids(existing)
    requires 0 <= k < |variables|
    ensures FindVariable(Applied(existing, Plan(variables, existing), newSid), variables[k].key).Some?
    ensures FindVariable(Applied(existing, Plan(variables, existing), newSid), variables[k].key).value.value == variables[k].value
  {
    var plan := Plan(variables, existing);
    var v := variables[k];
    var updated := seq(|existing|, i requires 0 <= i < |existing| => UpdatedEntry(existing[i], plan));
    var created := CreatedEntries(plan, newSid);
    assert Applied(existing, plan, newSid) == updated + created;
    FindVariableConcat(updated, created, v.key);
    forall m | 0 <= m < |existing|
      ensures updated[m].key == existing[m].key
    {
      PlanUpdatesOwnKey(variables, existing, m);
      UpdatedEntryKeepsKey(existing[m], plan);
    }
    FindVariableSameKeys(existing, updated, v.key);
    var d := Decide(v, existing);
    assert plan[k] == d;
    if d.Create? {
      FindCreated(variables, existing, newSid, k);
    } else {
      var m :| FirstKeyAt(existing, v.key, m) && existing[m].sid == d.sid;
      assert FindVariable(updated, v.key) == Some(updated[m]);
      PlanUpdatesOwnKey(variables, existing, m);
      // an update addressed to existing[m] comes from a desired variable with key v.key, hence from v
      forall a | a in plan && a.Update? && a.sid == existing[m].sid
        ensures a == d
      {
        var i :| 0 <= i < |plan| && plan[i] == a;
        assert variables[i].key == v.key;
        assert i == k;
      }
      if d.Keep? {
        UpdatedEntryUntouched(existing[m], plan);
      } else {
        UpdatedEntryOnce(existing[m], plan, d);
      }
    }
  }

  /**
   * Convergence after one run: once the requests of a sync took effect, the
   * same sync sends no request. Desired keys are distinct (they are an
   * object's own keys) and listed sids are distinct.
   */
  lemma SecondSyncSendsNothing(variables: seq<Variable>, existing: seq<VariableResource>, newSid: string -> Sid)
    requires DistinctKeys(variables)
    requires DistinctSids(existing)
    ensures Calls(Plan(variables, Applied(existing, Plan(variables, existing), newSid))) == []
  {
    var after := Applied(existing, Plan(variables, existing), newSid);
    forall v | v in variables
      ensures FindVariable(after, v.key).Some? && FindVariable(after, v.key).value.value == v.value
    {
      var k :| 0 <= k < |variables| && variables[k] == v;
      SyncedValue(variables, existing, newSid, k);
    }
    AlreadySyncedSendsNothing(variables, after);
  }

  // ---------------------------------------------------------------------------
  // setEnvironmentVariables: requests and outcome
  // ---------------------------------------------------------------------------

  /** The service's answer to one create or update request. */
  datatype Reply = Resolved | Rejected(cause: string)

  /** The first rejection among the requests, in order; `None` when all resolve. */
  function FirstRejection(calls: seq<Action>, respond: Action -> Reply): (r: Option<string>)
    ensures r.None? <==> forall i :: 0 <= i < |calls| ==> respond(calls[i]).Resolved?
    ensures r.Some? ==> exists i :: 0 <= i < |calls| && respond(calls[i]) == Rejected(r.value) &&
                                    forall j :: 0 <= j < i ==> respond(calls[j]).Resolved?
  {
    if calls == [] then None
    else if respond(calls[0]).Rejected? then Some(respond(calls[0]).cause)
    else
      var r := FirstRejection(calls[1..], respond);
      assert forall i :: 0 < i < |calls| ==> calls[i] == calls[1..][i - 1];
      assert r.Some? ==> exists i :: 0 <= i < |calls| - 1 && respond(calls[1..][i]) == Rejected(r.value) &&
                                     respond(calls[i + 1]) == Rejected(r.value) &&
                                     forall j :: 0 <= j < i ==> respond(calls[1..][j]).Resolved?;
      r
  }

  /** The requests a sync sent and the error it rejected with, if any. */
  datatype SyncReport = SyncReport(failure: Option<string>, calls: seq<Action>)

  /**
   * `setEnvironmentVariables`: list, convert, decide per variable, send the
   * create and update requests, and join them. A listing error or a rejected
   * request is passed on to the caller unchanged.
   */
  function SetEnvironmentVariables(
    env: seq<Entry>,
    listing: Result<seq<VariableResource>, string>,
    numText: real -> string,
    respond: Action -> Reply): (r: SyncReport)
    ensures listing.Err? ==> r == SyncReport(Some(listing.error), [])
    ensures listing.Ok? ==> r.calls == Calls(Plan(Converted(env, numText), listing.value))
    ensures listing.Ok? ==> (r.failure.None? <==> forall c :: c in r.calls ==> respond(c).Resolved?)
    ensures listing.Ok? && r.failure.Some? ==> exists c :: c in r.calls && respond(c) == Rejected(r.failure.value)
  {
    match listing
    case Err(cause) => SyncReport(Some(cause), [])
    case Ok(existingVariables) =>
      var variables := Converted(env, numText);
      var calls := Calls(Plan(variables, existingVariables));
      SyncReport(FirstRejection(calls, respond), calls)
  }
}
