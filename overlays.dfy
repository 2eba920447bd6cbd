/**
 * The list of result overlays (`latexExpressions`): `renderLatexToCanvas`
 * appends one entry per delivered result, and nothing else ever edits it.
 */
module Overlays {
  import opened Common
  import opened Bindings

  /** One draggable result annotation. */
  datatype Overlay = Overlay(id: string, latex: string, position: Point)

  /** The displayed text: the expression, then " = ", then the answer, each at its own fixed offsets. */
  function Caption(expression: string, answer: string): (s: string)
    ensures |s| == |expression| + |answer| + 3
    ensures s[..|expression|] == expression
    ensures s[|expression|..|expression| + 3] == " = "
    ensures s[|expression| + 3..] == answer
  {
    expression + " = " + answer
  }

  /** The state update of `renderLatexToCanvas`: one new entry at the end, earlier entries untouched. */
  function AppendOverlay(list: seq<Overlay>, id: string, expression: string, answer: string, position: Point): (r: seq<Overlay>)
    ensures |r| == |list| + 1 && r[..|list|] == list
    ensures r[|list|].latex == Caption(expression, answer)
    ensures r[|list|].id == id && r[|list|].position == position
  {
    list + [Overlay(id, Caption(expression, answer), position)]
  }

  /**
   * The delayed callbacks of one response, run in response order: each entry,
   * assigned or not, appends its overlay at the one shared `centre`; `ids`
   * are the clock readings the callbacks take.
   */
  function AppendAll(list: seq<Overlay>, resp: seq<Response>, ids: seq<string>, centre: Point): (r: seq<Overlay>)
    requires |ids| == |resp|
    ensures |r| == |list| + |resp| && r[..|list|] == list
    decreases |resp|
  {
    if resp == [] then list
    else AppendAll(AppendOverlay(list, ids[0], resp[0].expr, resp[0].result, centre), resp[1..], ids[1..], centre)
  }

  /**
   * A response of n entries adds exactly n overlays after the existing ones,
   * in response order, each captioned with its entry and placed at `centre`.
   */
  lemma {:induction false} AppendAllContents(list: seq<Overlay>, resp: seq<Response>, ids: seq<string>, centre: Point)
    requires |ids| == |resp|
    ensures |AppendAll(list, resp, ids, centre)| == |list| + |resp|
    ensures AppendAll(list, resp, ids, centre)[..|list|] == list
    ensures forall i :: 0 <= i < |resp| ==>
              AppendAll(list, resp, ids, centre)[|list| + i] == Overlay(ids[i], Caption(resp[i].expr, resp[i].result), centre)
    decreases |resp|
  {
    if resp != [] {
      var next := AppendOverlay(list, ids[0], resp[0].expr, resp[0].result, centre);
      AppendAllContents(next, resp[1..], ids[1..], centre);
      var r := AppendAll(list, resp, ids, centre);
      assert r == AppendAll(next, resp[1..], ids[1..], centre);
      assert r[..|list|] == next[..|next|][..|list|];
      forall i | 0 <= i < |resp|
        ensures r[|list| + i] == Overlay(ids[i], Caption(resp[i].expr, resp[i].result), centre)
      {
        if i > 0 {
          assert r[|next| + (i - 1)] == Overlay(ids[1..][i - 1], Caption(resp[1..][i - 1].expr, resp[1..][i - 1].result), centre);
        } else {
          assert r[..|next|][|list|] == next[|list|];
        }
      }
    }
  }
}
