/**
 * Reading the integral out of a computation engine's answer: the answer lists pods, each with
 * an id, a title and subpods holding MathML. The pod ids are tried in a fixed priority order,
 * and for each id the pods in answer order; the first pod whose id or title is the wanted id
 * and whose first subpod holds MathML gives the result, converted to LaTeX and cleaned up.
 */
module IntegralResult {
  import opened Wrappers
  import opened Text
  import opened IntegralCleanup

  datatype Subpod = Subpod(mathml: string)

  /** A missing `subpods` list is the empty list. */
  datatype Pod = Pod(id: string, title: string, subpods: seq<Subpod>)

  /** A missing `pods` list is the empty list. */
  datatype Answer = Answer(success: bool, pods: seq<Pod>)

  /** The pod names tried, highest priority first. */
  function PodIds(isDefinite: bool): (ids: seq<string>)
    ensures |ids| == (if isDefinite then 3 else 5)
    ensures "Result" in ids
  {
    if isDefinite then ["DefiniteIntegral", "Result", "Definite integral"]
    else ["IndefiniteIntegral", "AlternateFormOfTheIntegral", "LogExpand", "Result", "Indefinite integral"]
  }

  /** A pod answers for `target` when its id or title is `target` and its first subpod holds MathML. */
  predicate Takes(pod: Pod, target: string) {
    (pod.id == target || pod.title == target) && |pod.subpods| > 0 && pod.subpods[0].mathml != []
  }

  /** The first pod answering for `target`, by position. */
  function FirstTaking(pods: seq<Pod>, target: string): (r: Option<nat>)
    ensures r.Some? ==> r.value < |pods| && Takes(pods[r.value], target)
    ensures r.Some? ==> forall j :: 0 <= j < r.value ==> !Takes(pods[j], target)
    ensures r.None? <==> forall j :: 0 <= j < |pods| ==> !Takes(pods[j], target)
  {
    if pods == [] then None
    else if Takes(pods[0], target) then Some(0)
    else
      match FirstTaking(pods[1..], target)
      case None => None
      case Some(j) => Some(j + 1)
  }

  /** The pod chosen: the first answering for the first id that any pod answers for. */
  function SelectPod(ids: seq<string>, pods: seq<Pod>): (r: Option<Pod>)
    ensures r.Some? ==> exists i :: 0 <= i < |ids| && Takes(r.value, ids[i])
  {
    if ids == [] then None
    else
      match FirstTaking(pods, ids[0])
      case Some(j) => Some(pods[j])
      case None =>
        var r := SelectPod(ids[1..], pods);
        assert r.Some? ==> exists i :: 0 <= i < |ids| && Takes(r.value, ids[i]) by {
          if r.Some? {
            var i :| 0 <= i < |ids[1..]| && Takes(r.value, ids[1..][i]);
            assert Takes(r.value, ids[i + 1]);
          }
        }
        r
  }

  /**
   * Pod `j` for id `i` is the one the search stops at: it answers for `ids[i]`, no pod
   * answers for an earlier id, and no earlier pod answers for `ids[i]`.
   */
  ghost predicate FirstInPriority(ids: seq<string>, pods: seq<Pod>, i: int, j: int) {
    && 0 <= i < |ids| && 0 <= j < |pods|
    && Takes(pods[j], ids[i])
    && (forall i', j' :: 0 <= i' < i && 0 <= j' < |pods| ==> !Takes(pods[j'], ids[i']))
    && (forall j' :: 0 <= j' < j ==> !Takes(pods[j'], ids[i]))
  }

  /** The choice is the pod that comes first by id priority and then by position. */
  lemma {:induction false} SelectPodIsFirst(ids: seq<string>, pods: seq<Pod>)
    ensures SelectPod(ids, pods).Some? ==>
      exists i, j :: FirstInPriority(ids, pods, i, j) && SelectPod(ids, pods) == Some(pods[j])
    ensures SelectPod(ids, pods).None? ==>
      forall i, j :: 0 <= i < |ids| && 0 <= j < |pods| ==> !Takes(pods[j], ids[i])
    decreases |ids|
  {
    if ids != [] {
      match FirstTaking(pods, ids[0])
      case Some(j) =>
        assert FirstInPriority(ids, pods, 0, j);
      case None =>
        SelectPodIsFirst(ids[1..], pods);
        if SelectPod(ids[1..], pods).Some? {
          var i, j :| FirstInPriority(ids[1..], pods, i, j) && SelectPod(ids[1..], pods) == Some(pods[j]);
          assert FirstInPriority(ids, pods, i + 1, j) by {
            forall i', j' | 0 <= i' < i + 1 && 0 <= j' < |pods|
              ensures !Takes(pods[j'], ids[i'])
            {
              if i' > 0 { assert ids[i'] == ids[1..][i' - 1]; }
            }
          }
        } else {
          forall i, j | 0 <= i < |ids| && 0 <= j < |pods|
            ensures !Takes(pods[j], ids[i])
          {
            if i > 0 { assert ids[i] == ids[1..][i - 1]; }
          }
        }
    }
  }

  /** The choice is unique: only one (id, pod) pair can be first in priority. */
  lemma {:induction false} FirstInPriorityUnique(ids: seq<string>, pods: seq<Pod>, i: int, j: int, i2: int, j2: int)
    requires FirstInPriority(ids, pods, i, j) && FirstInPriority(ids, pods, i2, j2)
    ensures i == i2 && j == j2
  {
  }

  /**
   * What reading the answer gives: nothing (the error path) when the computation failed or
   * no pod answers for any id; else the first subpod's MathML of the chosen pod, converted by
   * `convert` and cleaned up.
   */
  function IntegralFromAnswer(answer: Answer, isDefinite: bool, convert: string -> string): (r: Option<string>)
    ensures r.Some? ==> IsTrimmed(r.value)
    ensures !answer.success ==> r.None?
  {
    if !answer.success then None
    else
      match SelectPod(PodIds(isDefinite), answer.pods)
      case None => None
      case Some(pod) => Some(CleanResult(convert(pod.subpods[0].mathml), isDefinite))
  }

  /**
   * The search as the widget runs it: ids in priority order, pods in answer order, stopping
   * at the first pod that answers.
   */
  method SearchPods(ids: seq<string>, pods: seq<Pod>) returns (r: Option<Pod>)
    ensures r == SelectPod(ids, pods)
  {
    var i := 0;
    while i < |ids|
      invariant 0 <= i <= |ids|
      invariant SelectPod(ids, pods) == SelectPod(ids[i..], pods)
    {
      var target := ids[i];
      var j := 0;
      while j < |pods|
        invariant 0 <= j <= |pods|
        invariant forall j' :: 0 <= j' < j ==> !Takes(pods[j'], target)
      {
        var pod := pods[j];
        if pod.id == target || pod.title == target {
          var subpods := pod.subpods;
          if |subpods| > 0 && subpods[0].mathml != [] {
            SelectAt(ids[i..], pods, j);
            return Some(pod);
          }
        }
        j := j + 1;
      }
      SelectSkip(ids, pods, i);
      i := i + 1;
    }
    assert ids[i..] == [];
    return None;
  }

  /** The search stops at pod `j` for the first remaining id when no earlier pod answers for it. */
  lemma {:induction false} SelectAt(ids: seq<string>, pods: seq<Pod>, j: int)
    requires ids != [] && 0 <= j < |pods| && Takes(pods[j], ids[0])
    requires forall j' :: 0 <= j' < j ==> !Takes(pods[j'], ids[0])
    ensures SelectPod(ids, pods) == Some(pods[j])
  {
    var k := FirstTaking(pods, ids[0]).value;
    assert k == j;
  }

  /** An id no pod answers for is passed over. */
  lemma {:induction false} SelectSkip(ids: seq<string>, pods: seq<Pod>, i: int)
    requires 0 <= i < |ids|
    requires forall j :: 0 <= j < |pods| ==> !Takes(pods[j], ids[i])
    ensures SelectPod(ids[i..], pods) == SelectPod(ids[i + 1..], pods)
  {
    assert ids[i..][0] == ids[i];
    assert ids[i..][1..] == ids[i + 1..];
  }

  /** Reading the answer: the error path, or the chosen pod's MathML converted and cleaned up. */
  method ExtractIntegral(answer: Answer, isDefinite: bool, convert: string -> string) returns (r: Option<string>)
    ensures r == IntegralFromAnswer(answer, isDefinite, convert)
  {
    if !answer.success {
      return None;
    }
    var chosen := SearchPods(PodIds(isDefinite), answer.pods);
    match chosen
    case None =>
      return None;
    case Some(pod) =>
      var converted := convert(pod.subpods[0].mathml);
      return Some(CleanResult(converted, isDefinite));
  }

  /** Trying ids in priority order: a pod answering for the first id wins whatever follows it. */
  lemma {:induction false} PriorityWins(ids: seq<string>, pods: seq<Pod>, j: int)
    requires ids != [] && 0 <= j < |pods| && Takes(pods[j], ids[0])
    ensures SelectPod(ids, pods).Some?
    ensures exists j' :: 0 <= j' <= j && SelectPod(ids, pods) == Some(pods[j']) && Takes(pods[j'], ids[0])
  {
    var k := FirstTaking(pods, ids[0]).value;
    assert k <= j;
  }
}
