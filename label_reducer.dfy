/**
 * The label page's reducers (Client/src/reducers/labelReducer.js).
 * A JavaScript action `{ type, payload }` is an `Action`; a reducer that
 * falls out of its `switch` returns `undefined`, modelled as `None`.
 */
module LabelReducer {
  import opened Wrappers
  import opened Seqs

  /** A label as the client holds it; only `id` is read by the reducer. */
  datatype Label = Label(id: int, name: string, color: string)

  /** The payloads the label page dispatches: a label list, a label id, or none. */
  datatype Payload = LabelList(labels: seq<Label>) | LabelId(id: int) | NoPayload

  /** `{ type, payload }`; `type` is a reserved word in Dafny. */
  datatype Action = Action(actionType: string, payload: Payload)

  /**
   * `label.id !== payload`. The comparison is strict, so a payload that is
   * not a number differs from every id.
   */
  predicate DiffersFrom(lbl: Label, payload: Payload)
  {
    !(payload.LabelId? && lbl.id == payload.id)
  }

  function DiffersFromFn(payload: Payload): Label -> bool
  {
    lbl => DiffersFrom(lbl, payload)
  }

  /** `labels.filter((label) => label.id !== payload)`. */
  function WithoutLabel(labels: seq<Label>, payload: Payload): (r: seq<Label>)
    ensures forall l :: l in r ==> !(payload.LabelId? && l.id == payload.id)
    ensures forall l :: l in labels && DiffersFrom(l, payload) ==> l in r
    ensures IsSubsequence(r, labels)
  {
    Filter(labels, DiffersFromFn(payload))
  }

  /** `labelReducer(labels, action)`. */
  function LabelReducer(labels: seq<Label>, action: Action): (r: Option<Payload>)
    ensures action.actionType == "SET_INIT_DATA" ==> r == Some(action.payload)
    ensures action.actionType == "DELETE_LABEL" ==>
      && r.Some? && r.value.LabelList?
      && IsSubsequence(r.value.labels, labels)
      && (forall l :: l in r.value.labels <==> l in labels && DiffersFrom(l, action.payload))
    ensures action.actionType != "SET_INIT_DATA" && action.actionType != "DELETE_LABEL" ==> r == None
  {
    match action.actionType
    case "SET_INIT_DATA" => Some(action.payload)
    case "DELETE_LABEL" => Some(LabelList(WithoutLabel(labels, action.payload)))
    case _ => None
  }

  /** SET_INIT_DATA ignores the previous labels. */
  lemma SetInitDataIgnoresState(a: seq<Label>, b: seq<Label>, payload: Payload)
    ensures LabelReducer(a, Action("SET_INIT_DATA", payload)) == LabelReducer(b, Action("SET_INIT_DATA", payload))
  {
  }

  /** Deleting an id keeps every other label with its multiplicity, in order, and none with that id. */
  lemma DeleteLabelSpec(labels: seq<Label>, id: int)
    ensures var r := LabelReducer(labels, Action("DELETE_LABEL", LabelId(id)));
      && r.Some? && r.value.LabelList?
      && (forall l :: l in r.value.labels ==> l.id != id)
      && (forall l :: multiset(r.value.labels)[l] == if l.id == id then 0 else multiset(labels)[l])
      && IsSubsequence(r.value.labels, labels)
  {
  }

  /** Deleting the same id twice is deleting it once. */
  lemma DeleteLabelIdempotent(labels: seq<Label>, payload: Payload)
    ensures WithoutLabel(WithoutLabel(labels, payload), payload) == WithoutLabel(labels, payload)
  {
    FilterIdempotent(labels, DiffersFromFn(payload));
  }

  /** Deleting an id no label has leaves the list as it was. */
  lemma DeleteAbsentLabel(labels: seq<Label>, id: int)
    requires forall l :: l in labels ==> l.id != id
    ensures WithoutLabel(labels, LabelId(id)) == labels
  {
    FilterKeepsAll(labels, DiffersFromFn(LabelId(id)));
  }

  /** A payload that is not a number deletes nothing. */
  lemma NonNumericPayloadDeletesNothing(labels: seq<Label>, payload: Payload)
    requires !payload.LabelId?
    ensures WithoutLabel(labels, payload) == labels
  {
    FilterKeepsAll(labels, DiffersFromFn(payload));
  }

  /** `newReducer`: true for NEW_LABEL_TAB_OPEN, otherwise undefined, whatever the previous state. */
  function NewReducer(isClickNew: Option<bool>, action: Action): (r: Option<bool>)
    ensures r == Some(true) <==> action.actionType == "NEW_LABEL_TAB_OPEN"
    ensures r.None? <==> action.actionType != "NEW_LABEL_TAB_OPEN"
  {
    match action.actionType
    case "NEW_LABEL_TAB_OPEN" => Some(true)
    case _ => None
  }
}
