/** The field validator the data layer reports into: an accumulator of
    field -> message pairs in which the first failure recorded for a field
    wins, and which is valid while nothing has been recorded. */
module Validation {

  /** One `Check(ok, key, message)` call, as a value. */
  datatype Rule = Rule(ok: bool, key: string, message: string)

  /** Every checked condition holds. */
  predicate AllHold(rules: seq<Rule>)
  {
    forall i :: 0 <= i < |rules| ==> rules[i].ok
  }

  /** The error map after one check: a failure is recorded under its field
      unless that field already carries a message. */
  function Record(errors: map<string, string>, rule: Rule): map<string, string>
  {
    if rule.ok || rule.key in errors then errors else errors[rule.key := rule.message]
  }

  /** A check adds its field exactly when it fails, never replaces a message
      already recorded, and records its own message for a field that had none. */
  lemma RecordFirstWins(errors: map<string, string>, rule: Rule)
    ensures Record(errors, rule).Keys == if rule.ok then errors.Keys else errors.Keys + {rule.key}
    ensures rule.key in errors ==> Record(errors, rule) == errors
    ensures !rule.ok && rule.key !in errors ==> Record(errors, rule)[rule.key] == rule.message
  {
  }

  /** The error map after the checks `rules`, run in order; checks only ever add fields. */
  function Apply(errors: map<string, string>, rules: seq<Rule>): (r: map<string, string>)
    ensures errors.Keys <= r.Keys
    decreases |rules|
  {
    if rules == [] then errors
    else Apply(Record(errors, rules[0]), rules[1..])
  }

  lemma AllHoldConcat(a: seq<Rule>, b: seq<Rule>)
    ensures AllHold(a + b) <==> AllHold(a) && AllHold(b)
  {
    if AllHold(a) && AllHold(b) {
      forall i | 0 <= i < |a + b| ensures (a + b)[i].ok {
        if i >= |a| { assert (a + b)[i] == b[i - |a|]; }
      }
    }
    if AllHold(a + b) {
      forall i | 0 <= i < |a| ensures a[i].ok {
        assert (a + b)[i] == a[i];
      }
      forall i | 0 <= i < |b| ensures b[i].ok {
        assert (a + b)[|a| + i] == b[i];
      }
    }
  }

  /** Running two batches of checks one after the other is running their concatenation. */
  lemma {:induction false} ApplyConcat(errors: map<string, string>, a: seq<Rule>, b: seq<Rule>)
    ensures Apply(errors, a + b) == Apply(Apply(errors, a), b)
    decreases |a|
  {
    if a == [] {
      assert a + b == b;
    } else {
      assert (a + b)[0] == a[0];
      assert (a + b)[1..] == a[1..] + b;
      ApplyConcat(Record(errors, a[0]), a[1..], b);
    }
  }

  /** The validator ends up valid exactly when it started valid and every
      checked condition held. */
  lemma {:induction false} ApplyValidIff(errors: map<string, string>, rules: seq<Rule>)
    ensures Apply(errors, rules) == map[] <==> errors == map[] && AllHold(rules)
    decreases |rules|
  {
    if rules != [] {
      var r := rules[0];
      var next := Record(errors, r);
      ApplyValidIff(next, rules[1..]);
      assert next == map[] <==> errors == map[] && r.ok by {
        if !r.ok && r.key !in errors { assert r.key in next; }
      }
      assert rules == [r] + rules[1..];
      AllHoldConcat([r], rules[1..]);
    }
  }

  /** First failure per field wins: a message already recorded is never replaced. */
  lemma {:induction false} ApplyKeepsRecorded(errors: map<string, string>, rules: seq<Rule>, key: string)
    requires key in errors
    ensures key in Apply(errors, rules) && Apply(errors, rules)[key] == errors[key]
    decreases |rules|
  {
    if rules != [] {
      ApplyKeepsRecorded(Record(errors, rules[0]), rules[1..], key);
    }
  }

  /** The validator object the validation functions write into. */
  class Validator {
    var errors: map<string, string>

    constructor ()
      ensures errors == map[]
    {
      errors := map[];
    }

    /** The Go validator's `Valid` query: no failure has been recorded, that
        is, the error map has no entries. */
    predicate NoErrors()
      reads this
      ensures NoErrors() <==> |errors| == 0
    {
      errors == map[]
    }

    /** Records `message` under `key` when `ok` is false and `key` has no message yet. */
    method Check(ok: bool, key: string, message: string)
      modifies this
      ensures errors == Apply(old(errors), [Rule(ok, key, message)])
    {
      if !ok && key !in errors {
        errors := errors[key := message];
      }
      assert [Rule(ok, key, message)][1..] == [];
    }
  }
}
