/**
 * The button handlers that sit in front of the reducer. Each one either
 * refuses (an empty text field), does nothing (a cancelled confirmation), or
 * dispatches exactly one action. The id of a new entry, which the
 * application draws from a UUID generator, and the user's answer to the
 * delete confirmation are parameters here.
 */
module Controls {
  import opened TodoState
  import opened Reducer

  /** The inline message shown when the text field is empty. */
  const EmptyInputError: string := "Todo input cannot be empty!"

  /** What a button handler does with the list. */
  datatype Outcome =
    | Refused(error: string)      // show an error, dispatch nothing
    | Cancelled                   // the user declined; dispatch nothing
    | Dispatched(action: Action)  // dispatch one action

  /** The "Add" button: refuse empty text, otherwise add it under `freshId`. */
  function AddBtn(input: string, freshId: Id): (o: Outcome)
    ensures o.Refused? <==> input == ""
    ensures o.Refused? ==> o.error == EmptyInputError
    ensures !o.Refused? ==> o.Dispatched? && o.action.Add? && o.action.id == freshId
    ensures o.Dispatched? ==> o.action.item == input != ""
  {
    if input == "" then Refused(EmptyInputError) else Dispatched(Add(freshId, input))
  }

  /** The "Delete" button: only a confirmed prompt dispatches the delete. */
  function DeleteBtn(id: Id, confirmed: bool): (o: Outcome)
    ensures !o.Refused?
    ensures o.Dispatched? <==> confirmed
    ensures o.Dispatched? ==> o.action == Delete(id)
  {
    if confirmed then Dispatched(Delete(id)) else Cancelled
  }

  /** The "Save" button of an entry being edited: refuse empty text,
      otherwise save it into the entry with `id`. */
  function SaveBtn(id: Id, editInput: string): (o: Outcome)
    ensures o.Refused? <==> editInput == ""
    ensures o.Refused? ==> o.error == EmptyInputError
    ensures !o.Refused? ==> o.Dispatched? && o.action.SaveEdit? && o.action.id == id
    ensures o.Dispatched? ==> o.action.data == editInput != ""
  {
    if editInput == "" then Refused(EmptyInputError) else Dispatched(SaveEdit(id, editInput))
  }

  /** The list after a handler has run: the reducer's result when it
      dispatched, the list as it was otherwise. */
  function Apply(s: seq<Todo>, o: Outcome): (r: seq<Todo>)
    ensures !o.Dispatched? ==> r == s
  {
    if o.Dispatched? then Reduce(s, o.action) else s
  }

  /** Empty text leaves the list unchanged; other text becomes a new entry
      at the front. */
  lemma AddBtnEffect(s: seq<Todo>, input: string, freshId: Id)
    ensures input == "" ==> Apply(s, AddBtn(input, freshId)) == s
    ensures input != "" ==> Apply(s, AddBtn(input, freshId)) == [Todo(freshId, input)] + s
  {
  }

  /** A cancelled prompt leaves the list unchanged; a confirmed one removes
      every entry with `id` and nothing else. */
  lemma DeleteBtnEffect(s: seq<Todo>, id: Id, confirmed: bool)
    ensures !confirmed ==> Apply(s, DeleteBtn(id, confirmed)) == s
    ensures confirmed ==> !HasId(Apply(s, DeleteBtn(id, confirmed)), id)
    ensures confirmed ==> IsSubsequence(Apply(s, DeleteBtn(id, confirmed)), s)
    ensures confirmed ==> forall t: Todo :: t.id != id ==>
      multiset(Apply(s, DeleteBtn(id, confirmed)))[t] == multiset(s)[t]
  {
    DeleteIsSubsequence(s, id);
    DeleteKeepsOthers(s, id);
  }

  /** Empty text leaves the list unchanged; other text is written into the
      matching entries, and every position keeps its id. */
  lemma SaveBtnEffect(s: seq<Todo>, id: Id, editInput: string)
    ensures editInput == "" ==> Apply(s, SaveBtn(id, editInput)) == s
    ensures editInput != "" ==> |Apply(s, SaveBtn(id, editInput))| == |s|
    ensures editInput != "" ==> forall i :: 0 <= i < |s| ==>
      Apply(s, SaveBtn(id, editInput))[i] ==
        (if s[i].id == id then Todo(id, editInput) else s[i])
  {
  }

  /** One user interaction with the list. */
  datatype Event =
    | AddClick(input: string, freshId: Id)
    | DeleteClick(id: Id, confirmed: bool)
    | SaveClick(id: Id, editInput: string)

  /** The handler an event runs. */
  function Handle(e: Event): Outcome
  {
    match e
    case AddClick(input, freshId) => AddBtn(input, freshId)
    case DeleteClick(id, confirmed) => DeleteBtn(id, confirmed)
    case SaveClick(id, editInput) => SaveBtn(id, editInput)
  }

  /** The list after a session of events, starting from `s`. A session in
      which no handler dispatches leaves the list as it was. */
  function Session(s: seq<Todo>, events: seq<Event>): (r: seq<Todo>)
    ensures (forall k :: 0 <= k < |events| ==> !Handle(events[k]).Dispatched?) ==> r == s
    decreases |events|
  {
    if events == [] then s else Session(Apply(s, Handle(events[0])), events[1..])
  }

  /** Every id drawn for an add is absent from the list at the moment of the
      click (what the UUID generator is relied on for). */
  predicate FreshIds(s: seq<Todo>, events: seq<Event>)
    decreases |events|
  {
    events == [] ||
    ((events[0].AddClick? ==> !HasId(s, events[0].freshId)) &&
     FreshIds(Apply(s, Handle(events[0])), events[1..]))
  }

  /** One handler keeps the list well-formed (unique ids, no empty text),
      given a fresh id for an add. */
  lemma HandleKeepsWellFormed(s: seq<Todo>, e: Event)
    requires WellFormed(s)
    requires e.AddClick? ==> !HasId(s, e.freshId)
    ensures WellFormed(Apply(s, Handle(e)))
  {
    match e
    case AddClick(input, freshId) =>
      if input != "" {
        AddUniqueIds(s, freshId, input);
      }
    case DeleteClick(id, confirmed) =>
      if confirmed {
        DeleteKeepsWellFormed(s, id);
      }
    case SaveClick(id, editInput) =>
      if editInput != "" {
        SaveEditKeepsWellFormed(s, id, editInput);
      }
  }

  /** A whole session of user interactions keeps the list well-formed. */
  lemma {:induction false} SessionKeepsWellFormed(s: seq<Todo>, events: seq<Event>)
    requires WellFormed(s)
    requires FreshIds(s, events)
    ensures WellFormed(Session(s, events))
    decreases |events|
  {
    if events != [] {
      HandleKeepsWellFormed(s, events[0]);
      SessionKeepsWellFormed(Apply(s, Handle(events[0])), events[1..]);
    }
  }
}
