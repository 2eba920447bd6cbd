/**
 * The variable bindings (`dictOfVars`) that `runRoute` accumulates from the
 * solving service's response: every entry flagged as an assignment
 * overwrites the binding of its expression.
 */
module Bindings {
  import opened Common

  /** One entry of the service's response. */
  datatype Response = Response(expr: string, result: string, assign: bool)

  /** Variable name to its last resolved value. */
  type Vars = map<string, string>

  /** The binding of `key`, if any. */
  function Lookup(vars: Vars, key: string): Option<string>
  {
    if key in vars then Some(vars[key]) else None
  }

  /** The functional update queued for one response entry. */
  function Assign(vars: Vars, entry: Response): (r: Vars)
    ensures forall k :: Lookup(r, k) == if entry.assign && k == entry.expr then Some(entry.result) else Lookup(vars, k)
  {
    if entry.assign then vars[entry.expr := entry.result] else vars
  }

  /** The expressions that some entry of the response assigns. */
  ghost function AssignedKeys(resp: seq<Response>): set<string>
  {
    set i | 0 <= i < |resp| && resp[i].assign :: resp[i].expr
  }

  /** The queued updates applied in response order, as React applies them. */
  function ApplyAssignments(vars: Vars, resp: seq<Response>): (r: Vars)
    ensures r.Keys == vars.Keys + AssignedKeys(resp)
    decreases |resp|
  {
    if resp == [] then vars
    else
      assert AssignedKeys(resp) == AssignedKeys(resp[..1]) + AssignedKeys(resp[1..]) by {
        forall k | k in AssignedKeys(resp) ensures k in AssignedKeys(resp[..1]) + AssignedKeys(resp[1..]) {
          var i :| 0 <= i < |resp| && resp[i].assign && resp[i].expr == k;
          if i > 0 { assert resp[1..][i - 1] == resp[i]; }
        }
      }
      ApplyAssignments(Assign(vars, resp[0]), resp[1..])
  }

  /** Reference reading: the result of the last assigning entry for `key`, scanning from the end. */
  function LastAssigned(resp: seq<Response>, key: string): Option<string>
    decreases |resp|
  {
    if resp == [] then None
    else
      var e := resp[|resp| - 1];
      if e.assign && e.expr == key then Some(e.result) else LastAssigned(resp[..|resp| - 1], key)
  }

  /** Applying a concatenation applies its parts one after the other. */
  lemma {:induction false} ApplyAssignmentsAppend(vars: Vars, a: seq<Response>, b: seq<Response>)
    ensures ApplyAssignments(vars, a + b) == ApplyAssignments(ApplyAssignments(vars, a), b)
    decreases |a|
  {
    if a != [] {
      assert (a + b)[0] == a[0];
      assert (a + b)[1..] == a[1..] + b;
      ApplyAssignmentsAppend(Assign(vars, a[0]), a[1..], b);
    } else {
      assert a + b == b;
    }
  }

  /**
   * After a response, a key assigned by it is bound to the result of its last
   * assigning entry; any other key keeps its previous value or absence.
   */
  lemma {:induction false} ApplyAssignmentsLookup(vars: Vars, resp: seq<Response>, key: string)
    ensures Lookup(ApplyAssignments(vars, resp), key) ==
              match LastAssigned(resp, key)
              case Some(v) => Some(v)
              case None => Lookup(vars, key)
    decreases |resp|
  {
    if resp != [] {
      var init, e := resp[..|resp| - 1], resp[|resp| - 1];
      assert resp == init + [e];
      ApplyAssignmentsAppend(vars, init, [e]);
      assert ApplyAssignments(ApplyAssignments(vars, init), [e]) == Assign(ApplyAssignments(vars, init), e);
      ApplyAssignmentsLookup(vars, init, key);
    }
  }

  /** An entry with `assign` false changes nothing, wherever it stands in the response. */
  lemma {:induction false} UnassignedEntryIgnored(vars: Vars, before: seq<Response>, e: Response, after: seq<Response>)
    requires !e.assign
    ensures ApplyAssignments(vars, before + [e] + after) == ApplyAssignments(vars, before + after)
  {
    ApplyAssignmentsAppend(vars, before + [e], after);
    ApplyAssignmentsAppend(vars, before, [e]);
    assert ApplyAssignments(ApplyAssignments(vars, before), [e]) == ApplyAssignments(vars, before);
    ApplyAssignmentsAppend(vars, before, after);
  }

  /** Two assignments of one expression in one response: the later one wins. */
  lemma LastAssignmentWins(vars: Vars, x: string, v1: string, v2: string)
    ensures ApplyAssignments(vars, [Response(x, v1, true), Response(x, v2, true)])[x] == v2
  {
    ApplyAssignmentsLookup(vars, [Response(x, v1, true), Response(x, v2, true)], x);
  }
}
