/** `validateClass`: checks a parsed object's keys against a class template. */
module Validation {
  import opened Results
  import opened JsModel

  /** An object's own properties in `Object.keys` order. */
  type Entries = seq<(string, JsValue)>

  /** Property names of a JavaScript object are unique. */
  predicate DistinctKeys(e: Entries) {
    forall i, j :: 0 <= i < j < |e| ==> e[i].0 != e[j].0
  }

  function KeySet(e: Entries): set<string> {
    set i | 0 <= i < |e| :: e[i].0
  }

  /** The key at `i` is new to the prefix before it, and extends its key set. */
  lemma KeySetStep(e: Entries, i: int)
    requires DistinctKeys(e) && 0 <= i < |e|
    ensures e[i].0 !in KeySet(e[..i])
    ensures KeySet(e[..i + 1]) == KeySet(e[..i]) + {e[i].0}
  {
    var p, q := e[..i], e[..i + 1];
    forall k | 0 <= k < |p| ensures p[k].0 != e[i].0 {
      assert p[k] == e[k];
    }
    forall key ensures key in KeySet(q) <==> key in KeySet(p) + {e[i].0} {
      if key in KeySet(q) {
        var k :| 0 <= k < |q| && q[k].0 == key;
        if k < i {
          assert p[k].0 == key;
        }
      }
      if key in KeySet(p) {
        var k :| 0 <= k < |p| && p[k].0 == key;
        assert q[k].0 == key;
      }
      if key == e[i].0 {
        assert q[i].0 == key;
      }
    }
  }

  /** `calculateRequiredKeys`: the template's keys with every optional key deleted. */
  function RequiredKeys(allowed: seq<string>, optional: seq<string>): (r: set<string>)
    ensures forall k :: k in r <==> k in allowed && k !in optional
  {
    if |optional| == 0 then set k | k in allowed
    else RequiredKeys(allowed, optional[..|optional| - 1]) - {optional[|optional| - 1]}
  }

  /** `toCheck[key] !== 0 && !toCheck[key]`: a falsy value other than 0. */
  predicate MissingValue(v: JsValue) {
    v != Num(0) && !Truthy(v)
  }

  /** Keys not in the template, in property order. */
  function UnexpectedKeys(e: Entries, allowed: seq<string>): (r: seq<string>)
    ensures |r| == 0 <==> forall i :: 0 <= i < |e| ==> e[i].0 in allowed
  {
    if |e| == 0 then []
    else
      var rest := UnexpectedKeys(e[..|e| - 1], allowed);
      var k := e[|e| - 1].0;
      assert forall i :: 0 <= i < |e| - 1 ==> e[..|e| - 1][i] == e[i];
      if k in allowed then rest else rest + [k]
  }

  /** Required keys whose value is missing, in property order. */
  function MissingValueKeys(e: Entries, required: set<string>): (r: seq<string>)
    ensures |r| == 0 <==> forall i :: 0 <= i < |e| && e[i].0 in required ==> !MissingValue(e[i].1)
  {
    if |e| == 0 then []
    else
      var rest := MissingValueKeys(e[..|e| - 1], required);
      var (k, v) := e[|e| - 1];
      assert forall i :: 0 <= i < |e| - 1 ==> e[..|e| - 1][i] == e[i];
      if k in required && MissingValue(v) then rest + [k] else rest
  }

  /** The three problems `validateClass` reports. */
  datatype ValidationError = ValidationError(missing: set<string>, unexpected: seq<string>, missingValues: seq<string>)

  /** An object conforms to a template when it has no unknown key, every
      required key is present, and no required key holds a falsy non-zero value. */
  ghost predicate Conforms(template: seq<string>, e: Entries, optional: seq<string>) {
    && (forall i :: 0 <= i < |e| ==> e[i].0 in template)
    && RequiredKeys(template, optional) <= KeySet(e)
    && (forall i :: 0 <= i < |e| && e[i].0 in RequiredKeys(template, optional) ==> !MissingValue(e[i].1))
  }

  /** Seeing a new key removes it from the required keys still unseen, if it is one. */
  lemma RemainingStep(required: set<string>, seen: set<string>, key: string)
    requires key !in seen
    ensures required - (seen + {key}) ==
      (if key in required - seen then (required - seen) - {key} else required - seen)
  {
  }

  lemma UnexpectedKeysStep(e: Entries, i: int, allowed: seq<string>)
    requires 0 <= i < |e|
    ensures UnexpectedKeys(e[..i + 1], allowed) ==
      UnexpectedKeys(e[..i], allowed) + (if e[i].0 in allowed then [] else [e[i].0])
  {
    assert e[..i + 1][..i] == e[..i];
  }

  lemma MissingValueKeysStep(e: Entries, i: int, required: set<string>)
    requires 0 <= i < |e|
    ensures MissingValueKeys(e[..i + 1], required) ==
      MissingValueKeys(e[..i], required) + (if e[i].0 in required && MissingValue(e[i].1) then [e[i].0] else [])
  {
    assert e[..i + 1][..i] == e[..i];
  }

  /** An object conforms exactly when none of the three problems is found. */
  lemma ConformsWhenNothingReported(template: seq<string>, e: Entries, optional: seq<string>)
    ensures Conforms(template, e, optional) <==>
      && RequiredKeys(template, optional) - KeySet(e) == {}
      && |UnexpectedKeys(e, template)| == 0
      && |MissingValueKeys(e, RequiredKeys(template, optional))| == 0
  {
    var req := RequiredKeys(template, optional);
    assert req <= KeySet(e) <==> req - KeySet(e) == {} by {
      if req - KeySet(e) == {} {
        forall k | k in req ensures k in KeySet(e) {
          assert k !in req - KeySet(e);
        }
      }
    }
  }

  /** `validateClass(obj, toCheck, optionalKeys)` where `template` is
      `Object.keys(obj)`: one pass over the properties, deleting each seen
      required key and collecting unexpected keys and missing values. */
  method ValidateClass(template: seq<string>, toCheck: Entries, optional: seq<string>)
    returns (r: Result<(), ValidationError>)
    requires DistinctKeys(toCheck)
    ensures r.Ok? <==> Conforms(template, toCheck, optional)
    ensures r.Err? ==>
      && r.error.missing == RequiredKeys(template, optional) - KeySet(toCheck)
      && r.error.unexpected == UnexpectedKeys(toCheck, template)
      && r.error.missingValues == MissingValueKeys(toCheck, RequiredKeys(template, optional))
  {
    var requiredAll := RequiredKeys(template, optional);
    var required := requiredAll;
    var unexpected: seq<string> := [];
    var missingValues: seq<string> := [];
    var i := 0;
    while i < |toCheck|
      invariant 0 <= i <= |toCheck|
      invariant required == requiredAll - KeySet(toCheck[..i])
      invariant unexpected == UnexpectedKeys(toCheck[..i], template)
      invariant missingValues == MissingValueKeys(toCheck[..i], requiredAll)
    {
      var (key, value) := toCheck[i];
      KeySetStep(toCheck, i);
      RemainingStep(requiredAll, KeySet(toCheck[..i]), key);
      UnexpectedKeysStep(toCheck, i, template);
      MissingValueKeysStep(toCheck, i, requiredAll);
      if key in required {
        required := required - {key};
        if MissingValue(value) {
          missingValues := missingValues + [key];
        }
      }
      if key !in template {
        unexpected := unexpected + [key];
      }
      i := i + 1;
    }
    assert toCheck[..i] == toCheck;
    ConformsWhenNothingReported(template, toCheck, optional);
    if required != {} || |missingValues| != 0 || |unexpected| != 0 {
      r := Err(ValidationError(required, unexpected, missingValues));
    } else {
      r := Ok(());
    }
  }
}
