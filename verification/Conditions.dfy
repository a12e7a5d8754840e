/** Status conditions of a policy, and the one setter its controller uses. */
module Conditions {
  datatype Condition = Condition(type_: string, status: bool)

  const READY := "Ready"

  /** isConditionTrue: the first condition of the type decides. */
  predicate IsTrue(cs: seq<Condition>, type_: string)
  {
    cs != [] && (if cs[0].type_ == type_ then cs[0].status else IsTrue(cs[1..], type_))
  }

  /** The first condition of the type takes the status; a new one is appended if there is none. */
  function Set(cs: seq<Condition>, type_: string, status: bool): seq<Condition>
  {
    if cs == [] then [Condition(type_, status)]
    else if cs[0].type_ == type_ then [Condition(type_, status)] + cs[1..]
    else [cs[0]] + Set(cs[1..], type_, status)
  }

  lemma {:induction false} SetSkips(cs: seq<Condition>, type_: string, status: bool, i: nat)
    requires i <= |cs| && forall k :: 0 <= k < i ==> cs[k].type_ != type_
    ensures Set(cs, type_, status) == cs[..i] + Set(cs[i..], type_, status)
  {
    if i > 0 {
      SetSkips(cs[1..], type_, status, i - 1);
      assert cs[1..][..i - 1] == cs[1..i] && cs[1..][i - 1..] == cs[i..];
      assert [cs[0]] + (cs[1..i] + Set(cs[i..], type_, status)) == cs[..i] + Set(cs[i..], type_, status);
    }
  }

  /** setAddressGroupBindingPolicyCondition. */
  method SetCondition(cs: seq<Condition>, type_: string, status: bool) returns (cs': seq<Condition>)
    ensures cs' == Set(cs, type_, status)
  {
    cs' := cs;
    for i := 0 to |cs|
      invariant cs' == cs && forall k :: 0 <= k < i ==> cs[k].type_ != type_
    {
      if cs[i].type_ == type_ {
        if cs[i].status != status {
          cs' := cs'[i := Condition(type_, status)];
        }
        SetSkips(cs, type_, status, i);
        assert cs' == cs[..i] + ([Condition(type_, status)] + cs[i..][1..]);
        return;
      }
    }
    SetSkips(cs, type_, status, |cs|);
    cs' := cs' + [Condition(type_, status)];
  }

  ghost predicate FirstOf(cs: seq<Condition>, type_: string, i: nat)
  {
    i < |cs| && cs[i].type_ == type_ && forall j :: 0 <= j < i ==> cs[j].type_ != type_
  }

  lemma {:induction false} IsTrueSkips(cs: seq<Condition>, type_: string, i: nat)
    requires i <= |cs| && forall k :: 0 <= k < i ==> cs[k].type_ != type_
    ensures IsTrue(cs, type_) <==> IsTrue(cs[i..], type_)
  {
    if i > 0 {
      IsTrueSkips(cs[1..], type_, i - 1);
      assert cs[1..][i - 1..] == cs[i..];
    } else {
      assert cs[0..] == cs;
    }
  }

  /** The first condition of the type decides, and is the one that is set. */
  lemma {:induction false} FirstDecides(cs: seq<Condition>, type_: string, status: bool, i: nat)
    requires FirstOf(cs, type_, i)
    ensures IsTrue(cs, type_) <==> cs[i].status
    ensures Set(cs, type_, status) == cs[i := Condition(type_, status)]
  {
    IsTrueSkips(cs, type_, i);
    SetSkips(cs, type_, status, i);
    assert cs[..i] + ([Condition(type_, status)] + cs[i..][1..]) == cs[i := Condition(type_, status)];
  }

  /** Without a condition of the type, it is not true, and setting it appends one. */
  lemma {:induction false} NoneAppends(cs: seq<Condition>, type_: string, status: bool)
    requires forall j :: 0 <= j < |cs| ==> cs[j].type_ != type_
    ensures !IsTrue(cs, type_) && Set(cs, type_, status) == cs + [Condition(type_, status)]
  {
    IsTrueSkips(cs, type_, |cs|);
    SetSkips(cs, type_, status, |cs|);
  }

  /** Setting a condition decides that condition and no other. */
  lemma {:induction false} SetDecides(cs: seq<Condition>, type_: string, status: bool, other: string)
    ensures IsTrue(Set(cs, type_, status), type_) <==> status
    ensures other != type_ ==> (IsTrue(Set(cs, type_, status), other) <==> IsTrue(cs, other))
  {
    if cs != [] && cs[0].type_ != type_ {
      SetDecides(cs[1..], type_, status, other);
      assert Set(cs, type_, status)[1..] == Set(cs[1..], type_, status);
    } else if cs != [] {
      assert Set(cs, type_, status)[1..] == cs[1..];
    }
  }
}
