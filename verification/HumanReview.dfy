/**
 Which rejections a human may override: read from the record of the gates that fired, failing closed on
 anything malformed.
 */
module HumanReview {
  import opened Wrappers

  /** A stored JSON value where a number is expected; an integer may be too large to be a float. */
  datatype Number = NotANumber | NonFinite | Finite(value: real) | Oversize

  /** One fired gate: malformed in number, name or advisory mark, or a record with the evidence it may carry. */
  datatype Fired =
    | Malformed
    | Fired(gate: nat, name: string, advisory: bool, expectedLoss: Number, threshold: Number, rau: Number,
      benefit: Number)

  datatype Eligibility = Eligible | Ineligible | Raises

  /** The name a gate must go by for its rejection to be overridable; no other gate's is. */
  function RejectGateName(gate: nat): Option<string> {
    match gate
    case 3 => Some("expected_loss_over_threshold")
    case 4 => Some("negative_rau")
    case 9 => Some("revision_has_no_credible_benefit")
    case _ => None
  }

  /** The numbers a gate's rejection rests on. */
  function Evidence(f: Fired): seq<Number>
    requires f.Fired?
  {
    if f.gate == 3 then [f.expectedLoss, f.threshold] else if f.gate == 4 then [f.rau] else [f.benefit]
  }

  /** The numbers are looked at in turn, up to the first that is not finite. */
  function AllFinite(numbers: seq<Number>): Eligibility {
    if numbers == [] then Eligible
    else if numbers[0].Oversize? then Raises
    else if !numbers[0].Finite? then Ineligible
    else AllFinite(numbers[1..])
  }

  /** The first gate that is not advisory. */
  function Controlling(fired: seq<Fired>): (c: Option<Fired>)
    ensures c.Some? ==> c.value.Fired? && !c.value.advisory && c.value in fired
  {
    if fired == [] then None
    else if fired[0].Fired? && !fired[0].advisory then Some(fired[0])
    else Controlling(fired[1..])
  }

  /** Whether the gates that fired make a rejection one a human may override. */
  function OverrideGate(fired: seq<Fired>): Eligibility {
    if exists f <- fired :: f.Malformed? then Ineligible
    else
      var c := Controlling(fired);
      if c.None? || RejectGateName(c.value.gate) != Some(c.value.name) then Ineligible
      else AllFinite(Evidence(c.value))
  }

  method LookAtEvidence(numbers: seq<Number>) returns (r: Eligibility)
    ensures r == AllFinite(numbers)
  {
    var i := 0;
    while i < |numbers|
      invariant 0 <= i <= |numbers| && AllFinite(numbers) == AllFinite(numbers[i..])
    {
      if numbers[i].Oversize? {
        return Raises;
      }
      if !numbers[i].Finite? {
        return Ineligible;
      }
      i := i + 1;
    }
    r := Eligible;
  }

  /** The scan over the fired gates. */
  method RejectOverrideGate(fired: seq<Fired>) returns (r: Eligibility)
    ensures r == OverrideGate(fired)
  {
    var controlling: Option<Fired> := None;
    var i := 0;
    assert fired[0..] == fired;
    while i < |fired|
      invariant 0 <= i <= |fired| && forall f <- fired[..i] :: f.Fired?
      invariant Controlling(fired) == if controlling.Some? then controlling else Controlling(fired[i..])
      invariant controlling.Some? ==> controlling.value.Fired?
    {
      if fired[i].Malformed? {
        assert fired[i] in fired;
        return Ineligible;
      }
      if controlling.None? && !fired[i].advisory {
        controlling := Some(fired[i]);
      }
      assert fired[..i + 1] == fired[..i] + [fired[i]];
      i := i + 1;
    }
    assert fired[..i] == fired && fired[i..] == [];
    if controlling.None? || RejectGateName(controlling.value.gate) != Some(controlling.value.name) {
      return Ineligible;
    }
    r := LookAtEvidence(Evidence(controlling.value));
  }

  /** All records are well-formed, and the `i`-th is the first that is not advisory. */
  ghost predicate Controls(fired: seq<Fired>, i: nat) {
    && (forall f <- fired :: f.Fired?)
    && i < |fired| && !fired[i].advisory && forall j :: 0 <= j < i ==> fired[j].advisory
  }

  /** A rejection a human may override: by one of three gates, under its own name, on finite evidence. */
  predicate Overridable(f: Fired) {
    f.Fired?
    && ((f.gate == 3 && f.name == "expected_loss_over_threshold" && f.expectedLoss.Finite? && f.threshold.Finite?)
        || (f.gate == 4 && f.name == "negative_rau" && f.rau.Finite?)
        || (f.gate == 9 && f.name == "revision_has_no_credible_benefit" && f.benefit.Finite?))
  }

  /** The evidence of such a gate holds a number too large for a float before any other that is not finite. */
  predicate Overflows(f: Fired) {
    f.Fired?
    && ((f.gate == 3 && f.name == "expected_loss_over_threshold"
         && (f.expectedLoss.Oversize? || (f.expectedLoss.Finite? && f.threshold.Oversize?)))
        || (f.gate == 4 && f.name == "negative_rau" && f.rau.Oversize?)
        || (f.gate == 9 && f.name == "revision_has_no_credible_benefit" && f.benefit.Oversize?))
  }

  lemma EvidenceMeans(f: Fired)
    requires f.Fired? && RejectGateName(f.gate) == Some(f.name)
    ensures AllFinite(Evidence(f)).Eligible? <==> Overridable(f)
    ensures AllFinite(Evidence(f)).Raises? <==> Overflows(f)
  {
    var numbers := Evidence(f);
    assert AllFinite([]) == Eligible;
    if |numbers| == 1 {
      assert numbers[1..] == [];
    } else {
      assert numbers[1..] == [numbers[1]] && numbers[1..][1..] == [];
    }
  }

  lemma {:induction false} ControllingIsFirst(fired: seq<Fired>)
    requires forall f <- fired :: f.Fired?
    ensures Controlling(fired).None? <==> forall f <- fired :: f.advisory
    ensures Controlling(fired).Some? ==> exists i: nat :: Controls(fired, i) && fired[i] == Controlling(fired).value
  {
    if fired != [] {
      var rest := fired[1..];
      assert fired[0] in fired && forall f <- rest :: f in fired;
      ControllingIsFirst(rest);
      if !fired[0].advisory {
        assert Controls(fired, 0);
      } else {
        assert forall f <- fired :: f == fired[0] || f in rest;
        if Controlling(rest).Some? {
          var i: nat :| Controls(rest, i) && rest[i] == Controlling(rest).value;
          assert fired[i + 1] == rest[i] && forall j :: 0 < j < i + 1 ==> fired[j] == rest[j - 1];
          assert Controls(fired, i + 1);
        }
      }
    }
  }

  /**
   A rejection is overridable exactly when every record is well-formed and the first that is not advisory is one a human
   may override. Reading it fails exactly when the evidence of that one overflows.
   */
  lemma OverrideGateMeans(fired: seq<Fired>)
    ensures OverrideGate(fired).Eligible? <==> exists i: nat :: Controls(fired, i) && Overridable(fired[i])
    ensures OverrideGate(fired).Raises? <==> exists i: nat :: Controls(fired, i) && Overflows(fired[i])
  {
    if forall f <- fired :: f.Fired? {
      ControllingIsFirst(fired);
      forall i: nat, j: nat | Controls(fired, i) && Controls(fired, j) ensures i == j {
      }
      if Controlling(fired).Some? && RejectGateName(Controlling(fired).value.gate)
        == Some(Controlling(fired).value.name) {
        EvidenceMeans(Controlling(fired).value);
      }
    }
  }
}
