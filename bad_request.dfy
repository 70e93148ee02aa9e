/**
 Field violations and the bad-request aggregate of bad_request.go, with the
 two records they serialise to in the `google.rpc.BadRequest` error-detail
 message (modelled as plain values; no wire encoding).
 */
module BadRequests {
  import opened Rules

  /** `edpb.BadRequest_FieldViolation`. */
  datatype FieldViolationMsg = FieldViolationMsg(field: string, description: string)

  /** `edpb.BadRequest`; an absent (nil) list and an empty one are the same value. */
  datatype BadRequestMsg = BadRequestMsg(fieldViolations: seq<FieldViolationMsg>)

  /** One field of a request and the text explaining what is wrong with it. */
  datatype FieldViolation = FieldViolation(field: string, description: string)
  {
    /** The violation as the external message: nothing is dropped. */
    function Serialize(): (msg: FieldViolationMsg)
      ensures msg.field == field && msg.description == description
    {
      FieldViolationMsg(field, description)
    }
  }

  /** Serialising is one-to-one: two violations with the same message are
      the same violation. */
  lemma SerializeInjective(v: FieldViolation, w: FieldViolation)
    ensures v.Serialize() == w.Serialize() <==> v == w
  {
  }

  /** `NewFieldViolationWithRule`: the description comes from the formatter
      registered under `rule`, or from the "invalid" one when `rule` is not
      registered. The field is stored as given. */
  function NewFieldViolationWithRule(field: string, rule: string, params: seq<string>): (v: FieldViolation)
    requires Lookup(rule).NeedsParam() ==> |params| >= 1
    ensures v.field == field
    ensures field + " " < v.description
    ensures rule !in Registry ==> v.description == field + " is invalid"
  {
    DescriptionNamesField(Lookup(rule), field, params);
    FieldViolation(field, Format(Lookup(rule), field, params))
  }

  /** `NewFieldViolation`: field and description stored verbatim. */
  function NewFieldViolation(field: string, description: string): (v: FieldViolation)
    ensures v.field == field && v.description == description
  {
    FieldViolation(field, description)
  }

  /** A rule-built violation is the verbatim one whose text the looked-up
      formatter produced. */
  lemma WithRuleIsFormattedText(field: string, rule: string, params: seq<string>)
    requires Lookup(rule).NeedsParam() ==> |params| >= 1
    ensures NewFieldViolationWithRule(field, rule, params)
         == NewFieldViolation(field, Format(Lookup(rule), field, params))
  {
  }

  /** An unknown rule name gives exactly the violation the "invalid" rule gives. */
  lemma UnknownRuleFallsBack(field: string, rule: string, params: seq<string>)
    requires rule !in Registry
    ensures NewFieldViolationWithRule(field, rule, params)
         == NewFieldViolationWithRule(field, "invalid", params)
  {
  }

  /** `required` on "email" reads "email can't be blank". */
  lemma RequiredExample()
    ensures NewFieldViolationWithRule("email", "required", []).description == "email can't be blank"
  {
  }

  /** The messages of a list of violations, one per violation, in order. */
  function Messages(fvs: seq<FieldViolation>): (msgs: seq<FieldViolationMsg>)
    ensures |msgs| == |fvs|
  {
    if fvs == [] then [] else [fvs[0].Serialize()] + Messages(fvs[1..])
  }

  /** The i-th message is the i-th violation serialised. */
  lemma {:induction false} MessagesAt(fvs: seq<FieldViolation>, i: nat)
    requires i < |fvs|
    ensures Messages(fvs)[i] == fvs[i].Serialize()
  {
    if i > 0 {
      MessagesAt(fvs[1..], i - 1);
    }
  }

  /** Serialising a concatenation serialises each part in turn. */
  lemma {:induction false} MessagesAppend(a: seq<FieldViolation>, b: seq<FieldViolation>)
    ensures Messages(a + b) == Messages(a) + Messages(b)
  {
    if a != [] {
      assert (a + b)[1..] == a[1..] + b;
      MessagesAppend(a[1..], b);
    } else {
      assert a + b == b;
    }
  }

  /** The aggregate: the violations the caller reported, in that order. */
  class BadRequest {
    var fvs: seq<FieldViolation>

    /** `NewBadRequest`: starts with the given violations, in order. */
    constructor (fvs: seq<FieldViolation>)
      ensures this.fvs == fvs
    {
      this.fvs := fvs;
    }

    /** Appends `added` in place and hands back the same aggregate, so
        calls can be chained; nothing already present changes. */
    method WithFieldViolations(added: seq<FieldViolation>) returns (r: BadRequest)
      modifies this
      ensures r == this
      ensures fvs == old(fvs) + added
    {
      fvs := fvs + added;
      r := this;
    }

    /** One message per violation, in order. */
    method Serialize() returns (msg: BadRequestMsg)
      ensures msg.fieldViolations == Messages(fvs)
      ensures |msg.fieldViolations| == |fvs|
      ensures forall i :: 0 <= i < |fvs| ==> msg.fieldViolations[i] == fvs[i].Serialize()
    {
      var out: seq<FieldViolationMsg> := [];
      for k := 0 to |fvs|
        invariant out == Messages(fvs[..k])
      {
        assert fvs[..k + 1] == fvs[..k] + [fvs[k]];
        MessagesAppend(fvs[..k], [fvs[k]]);
        out := out + [fvs[k].Serialize()];
      }
      assert fvs[..|fvs|] == fvs;
      forall i | 0 <= i < |fvs|
        ensures out[i] == fvs[i].Serialize()
      {
        MessagesAt(fvs, i);
      }
      msg := BadRequestMsg(out);
    }
  }

  /** Building with `a` and then appending `b` serialises exactly as
      building with `a + b` at once: `a`'s messages, then `b`'s. */
  method ChainedEqualsCombined(a: seq<FieldViolation>, b: seq<FieldViolation>)
    returns (chained: BadRequestMsg, combined: BadRequestMsg)
    ensures chained == combined
    ensures chained.fieldViolations == Messages(a) + Messages(b)
  {
    var first := new BadRequest(a);
    var same := first.WithFieldViolations(b);
    chained := same.Serialize();
    var whole := new BadRequest(a + b);
    combined := whole.Serialize();
    MessagesAppend(a, b);
  }
}
