/**
 * The "all-of" read-access filter of Groups Require All.
 *
 * The Groups plugin grants read access to a post when the user holds ANY of
 * the post's read capabilities. This plugin hooks the host's decision and
 * replaces it: the user may read the post only when they hold ALL of them.
 * The capability lookup for a post and the user's capability check belong to
 * the Groups plugin, so they enter the model as an input sequence and a
 * function parameter.
 */
module AllOfAccess {

  /** Reference meaning of the all-of policy: every read capability is held. */
  predicate AllHeld(caps: seq<string>, can: string -> bool) {
    forall i :: 0 <= i < |caps| ==> can(caps[i])
  }

  /** Index of the first capability the user lacks, or |caps| when none is lacking. */
  function FirstLacking(caps: seq<string>, can: string -> bool): (k: nat)
    ensures k <= |caps|
    ensures forall i :: 0 <= i < k ==> can(caps[i])
    ensures k < |caps| ==> !can(caps[k])
  {
    if |caps| == 0 then 0
    else if !can(caps[0]) then 0
    else 1 + FirstLacking(caps[1..], can)
  }

  /**
   * The capabilities a left-to-right, short-circuiting evaluation asks the
   * user check about, in the order it asks: each capability is checked, and
   * the walk stops right after the first one that fails.
   */
  function Trace(caps: seq<string>, can: string -> bool): seq<string> {
    if |caps| == 0 then []
    else if can(caps[0]) then [caps[0]] + Trace(caps[1..], can)
    else [caps[0]]
  }

  /** The all-of decision is exactly "no capability is lacking". */
  lemma AllHeldIffNoneLacking(caps: seq<string>, can: string -> bool)
    ensures AllHeld(caps, can) <==> FirstLacking(caps, can) == |caps|
  {
  }

  /**
   * The evaluation checks exactly the prefix of the capability list that
   * ends at the first lacking capability (inclusive), or the whole list when
   * nothing is lacking.
   */
  lemma {:induction false} TraceIsPrefixToFirstLacking(caps: seq<string>, can: string -> bool)
    ensures FirstLacking(caps, can) < |caps| ==> Trace(caps, can) == caps[..FirstLacking(caps, can) + 1]
    ensures FirstLacking(caps, can) == |caps| ==> Trace(caps, can) == caps
  {
    if |caps| != 0 && can(caps[0]) {
      TraceIsPrefixToFirstLacking(caps[1..], can);
      assert caps == [caps[0]] + caps[1..];
      if FirstLacking(caps, can) < |caps| {
        var k := FirstLacking(caps[1..], can);
        assert caps[..k + 2] == [caps[0]] + caps[1..][..k + 1];
      }
    }
  }

  /**
   * Permuting the read capabilities never changes the all-of decision.
   */
  lemma AllHeldPermutationInvariant(a: seq<string>, b: seq<string>, can: string -> bool)
    requires multiset(a) == multiset(b)
    ensures AllHeld(a, can) <==> AllHeld(b, can)
  {
    forall a: seq<string>, b: seq<string> | multiset(a) == multiset(b) && AllHeld(a, can)
      ensures AllHeld(b, can)
    {
      forall j | 0 <= j < |b|
        ensures can(b[j])
      {
        assert b[j] in multiset(b);
        assert b[j] in multiset(a);
        var i :| 0 <= i < |a| && a[i] == b[j];
      }
    }
  }

  /**
   * When every capability is held, any permutation of the list leads to the
   * same checks up to order: each capability is checked once per occurrence.
   */
  lemma PermutationReordersChecks(a: seq<string>, b: seq<string>, can: string -> bool)
    requires multiset(a) == multiset(b)
    requires AllHeld(a, can)
    ensures multiset(Trace(a, can)) == multiset(Trace(b, can))
  {
    AllHeldPermutationInvariant(a, b, can);
    AllHeldIffNoneLacking(a, can);
    AllHeldIffNoneLacking(b, can);
    TraceIsPrefixToFirstLacking(a, can);
    TraceIsPrefixToFirstLacking(b, can);
  }

  /**
   * When a capability is lacking, the order does change which capabilities
   * get checked: the lists ["a", "b"] and ["b", "a"] with only "b" held.
   */
  lemma PermutationCanChangeChecks()
    ensures var can := (c: string) => c == "b";
      && multiset(["a", "b"]) == multiset(["b", "a"])
      && Trace(["a", "b"], can) == ["a"]
      && Trace(["b", "a"], can) == ["b", "a"]
  {
  }

  /**
   * `groups_require_all($result, $post_id, $user_id)`: the filter on
   * `groups_post_access_user_can_read_post`. `readCaps` is the list the
   * Groups plugin returns for the post and `can` is the user's capability
   * check. The ghost `checked` records every call to `can`, in order.
   */
  method GroupsRequireAll(result: bool, readCaps: seq<string>, can: string -> bool)
    returns (allowed: bool, ghost checked: seq<string>)
    ensures allowed <==> AllHeld(readCaps, can)
    ensures |readCaps| == 0 ==> allowed && checked == []
    ensures checked == Trace(readCaps, can)
    ensures allowed ==> checked == readCaps
    ensures !allowed ==>
              && 0 < |checked| <= |readCaps|
              && checked == readCaps[..|checked|]
              && !can(checked[|checked| - 1])
              && forall i :: 0 <= i < |checked| - 1 ==> can(checked[i])
  {
    checked := [];
    if |readCaps| != 0 {
      var i := 0;
      while i < |readCaps|
        invariant 0 <= i <= |readCaps|
        invariant checked == readCaps[..i]
        invariant forall j :: 0 <= j < i ==> can(readCaps[j])
        invariant Trace(readCaps, can) == checked + Trace(readCaps[i..], can)
      {
        checked := checked + [readCaps[i]];
        if !can(readCaps[i]) {
          assert readCaps[..i + 1] == checked;
          return false, checked;
        }
        assert readCaps[i..][1..] == readCaps[i + 1..];
        i := i + 1;
      }
      assert readCaps[..i] == readCaps;
    }
    allowed := true;
  }
}
