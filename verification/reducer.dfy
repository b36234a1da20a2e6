/**
 * The list reducer: a pure function from the current list of entries and an
 * action to the next list. Every case builds a new list; nothing is updated
 * in place.
 */
module Reducer {
  import opened TodoState

  /** The entries of `s` whose id differs from `id`, in their original order
      (the `filter` of the delete case). */
  function Without(s: seq<Todo>, id: Id): (r: seq<Todo>)
    ensures |r| <= |s|
    ensures forall i :: 0 <= i < |r| ==> r[i].id != id
    ensures forall t :: t in r ==> t in s
  {
    if s == [] then []
    else if s[0].id == id then Without(s[1..], id)
    else [s[0]] + Without(s[1..], id)
  }

  /** `s` with the text of every entry carrying `id` replaced by `data`
      (the `map` of the save-edit case). */
  function Edited(s: seq<Todo>, id: Id, data: string): (r: seq<Todo>)
    ensures |r| == |s|
    ensures forall i :: 0 <= i < |s| ==>
      r[i].id == s[i].id &&
      r[i].item == (if s[i].id == id then data else s[i].item)
  {
    if s == [] then []
    else [if s[0].id == id then s[0].(item := data) else s[0]] + Edited(s[1..], id, data)
  }

  /** The reducer: the list that follows `s` once `a` is dispatched. */
  function Reduce(s: seq<Todo>, a: Action): (r: seq<Todo>)
    ensures a.SetTodo? ==> r == a.list
    ensures a.Add? ==> |r| == |s| + 1 && r[0] == Todo(a.id, a.item) && r[1..] == s
    ensures a.Delete? ==> |r| <= |s| && !HasId(r, a.id)
    ensures a.SaveEdit? ==> |r| == |s|
  {
    match a
    case SetTodo(list) => list
    case Add(id, item) => [Todo(id, item)] + s
    case Delete(id) => Without(s, id)
    case SaveEdit(id, data) => Edited(s, id, data)
  }

  /** The list after dispatching `acts` one after another, starting from `s`. */
  function Run(s: seq<Todo>, acts: seq<Action>): seq<Todo>
    decreases |acts|
  {
    if acts == [] then s else Run(Reduce(s, acts[0]), acts[1..])
  }

  /** One `add` action per entry of `es`, dispatched in the order of `es`. */
  function AddActions(es: seq<Todo>): (acts: seq<Action>)
    ensures |acts| == |es|
    ensures forall k :: 0 <= k < |es| ==> acts[k] == Add(es[k].id, es[k].item)
  {
    if es == [] then [] else [Add(es[0].id, es[0].item)] + AddActions(es[1..])
  }

  // ---------------------------------------------------------------- setTodo

  /** `setTodo` yields exactly the supplied list, whatever the state was. */
  lemma SetTodoIgnoresState(s1: seq<Todo>, s2: seq<Todo>, data: seq<Todo>)
    ensures Reduce(s1, SetTodo(data)) == data
    ensures Reduce(s1, SetTodo(data)) == Reduce(s2, SetTodo(data))
  {
  }

  // -------------------------------------------------------------------- add

  /** `add` prepends: the new entry is at index 0 and the old entries keep
      their order at indices 1 onwards. */
  lemma AddPrepends(s: seq<Todo>, id: Id, item: string)
    ensures |Reduce(s, Add(id, item))| == |s| + 1
    ensures Reduce(s, Add(id, item))[0] == Todo(id, item)
    ensures forall i :: 0 <= i < |s| ==> Reduce(s, Add(id, item))[i + 1] == s[i]
  {
  }

  /** After `add`, ids are unique exactly when they were unique before and
      the new id was not already present. */
  lemma AddUniqueIds(s: seq<Todo>, id: Id, item: string)
    ensures UniqueIds(Reduce(s, Add(id, item))) <==> UniqueIds(s) && !HasId(s, id)
  {
  }

  /** Dispatching the first `add` of a batch puts its entry in front. */
  lemma AddActionsStep(s: seq<Todo>, es: seq<Todo>)
    requires es != []
    ensures Run(s, AddActions(es)) == Run([es[0]] + s, AddActions(es[1..]))
  {
  }

  /** Adding the entries of `es` one after another puts them in front of
      `s`, newest first, one entry per add. */
  lemma {:induction false} AddsNewestFirst(s: seq<Todo>, es: seq<Todo>)
    ensures Run(s, AddActions(es)) == Reversed(es) + s
    decreases |es|
  {
    if es == [] {
      assert Reversed(es) + s == s;
    } else {
      var e, rest := es[0], es[1..];
      AddActionsStep(s, es);
      AddsNewestFirst([e] + s, rest);
      var rv := Reversed(rest);
      assert Reversed(es) == rv + [e];
      assert rv + ([e] + s) == (rv + [e]) + s;
    }
  }

  /** Adding entries to an empty list gives one entry per add, the last one
      added first; when the added ids are distinct, the ids are unique. */
  lemma AddsFromEmpty(es: seq<Todo>)
    ensures |Run([], AddActions(es))| == |es|
    ensures forall k :: 0 <= k < |es| ==> Run([], AddActions(es))[k] == es[|es| - 1 - k]
    ensures UniqueIds(es) ==> UniqueIds(Run([], AddActions(es)))
  {
    forall k | 0 <= k < |es| ensures Reversed(es)[k] == es[|es| - 1 - k] {
      ReversedAt(es, k);
    }
    AddsNewestFirst([], es);
    assert Reversed(es) + [] == Reversed(es);
    if UniqueIds(es) {
      ReversedUniqueIds(es);
    }
  }

  // ----------------------------------------------------------------- delete

  /** `delete` with an id that is not present leaves the list unchanged. */
  lemma {:induction false} DeleteAbsentIsNoop(s: seq<Todo>, id: Id)
    requires !HasId(s, id)
    ensures Reduce(s, Delete(id)) == s
  {
    if s != [] {
      assert s[0].id != id;
      assert !HasId(s[1..], id) by {
        forall i | 0 <= i < |s[1..]| ensures s[1..][i].id != id {
          assert s[1..][i] == s[i + 1];
        }
      }
      DeleteAbsentIsNoop(s[1..], id);
    }
  }

  /** `delete` is idempotent. */
  lemma DeleteIdempotent(s: seq<Todo>, id: Id)
    ensures Reduce(Reduce(s, Delete(id)), Delete(id)) == Reduce(s, Delete(id))
  {
    DeleteAbsentIsNoop(Reduce(s, Delete(id)), id);
  }

  /** The result of `delete` keeps the order of the entries it keeps. */
  lemma {:induction false} DeleteIsSubsequence(s: seq<Todo>, id: Id)
    ensures IsSubsequence(Reduce(s, Delete(id)), s)
    decreases |s|
  {
    if s != [] {
      var rest := Without(s[1..], id);
      DeleteIsSubsequence(s[1..], id);
      if s[0].id != id {
        assert Without(s, id)[1..] == rest;
      } else if rest != [] {
        assert rest[0] != s[0];
      }
    }
  }

  /** `delete` keeps every entry with another id, as often as it occurred. */
  lemma {:induction false} DeleteKeepsOthers(s: seq<Todo>, id: Id)
    ensures forall t: Todo :: t.id != id ==> multiset(Reduce(s, Delete(id)))[t] == multiset(s)[t]
    decreases |s|
  {
    if s != [] {
      DeleteKeepsOthers(s[1..], id);
      assert s == [s[0]] + s[1..];
    }
  }

  /** The three properties above determine the result of `delete`: any list
      that is a subsequence of `s`, has no entry with `id`, and keeps every
      other entry as often as `s` has it, is that result. */
  lemma {:induction false} DeleteCharacterised(s: seq<Todo>, id: Id, r: seq<Todo>)
    requires IsSubsequence(r, s)
    requires !HasId(r, id)
    requires forall t: Todo :: t.id != id ==> multiset(r)[t] == multiset(s)[t]
    ensures r == Reduce(s, Delete(id))
    decreases |s|
  {
    if s == [] {
    } else {
      assert s == [s[0]] + s[1..];
      if s[0].id == id {
        // r cannot start with s[0], so it is a subsequence of s[1..]
        assert r == [] || r[0] != s[0];
        assert IsSubsequence(r, s[1..]);
        forall t: Todo | t.id != id ensures multiset(r)[t] == multiset(s[1..])[t] {
          assert multiset(s)[t] == multiset(s[1..])[t];
        }
        DeleteCharacterised(s[1..], id, r);
      } else {
        assert multiset(r)[s[0]] == multiset(s)[s[0]];
        assert r != [];
        if r[0] == s[0] && IsSubsequence(r[1..], s[1..]) {
          assert r == [r[0]] + r[1..];
          assert !HasId(r[1..], id) by {
            forall i | 0 <= i < |r[1..]| ensures r[1..][i].id != id {
              assert r[1..][i] == r[i + 1];
            }
          }
          forall t: Todo | t.id != id ensures multiset(r[1..])[t] == multiset(s[1..])[t] {
            assert multiset(r)[t] == multiset(r[1..])[t] + (if t == s[0] then 1 else 0);
            assert multiset(s)[t] == multiset(s[1..])[t] + (if t == s[0] then 1 else 0);
          }
          DeleteCharacterised(s[1..], id, r[1..]);
        } else {
          // r would miss one occurrence of s[0]
          assert IsSubsequence(r, s[1..]);
          SubsequenceMultiset(r, s[1..]);
          assert false;
        }
      }
    }
  }

  /** With unique ids, deleting a present id removes exactly one entry. */
  lemma {:induction false} DeletePresentLength(s: seq<Todo>, id: Id)
    requires UniqueIds(s) && HasId(s, id)
    ensures |Reduce(s, Delete(id))| == |s| - 1
    decreases |s|
  {
    assert UniqueIds(s[1..]) by {
      forall i, j | 0 <= i < j < |s[1..]| ensures s[1..][i].id != s[1..][j].id {
        assert s[1..][i] == s[i + 1] && s[1..][j] == s[j + 1];
      }
    }
    if s[0].id == id {
      assert !HasId(s[1..], id) by {
        forall i | 0 <= i < |s[1..]| ensures s[1..][i].id != id {
          assert s[1..][i] == s[i + 1];
        }
      }
      DeleteAbsentIsNoop(s[1..], id);
    } else {
      var k :| 0 <= k < |s| && s[k].id == id;
      assert s[1..][k - 1].id == id;
      DeletePresentLength(s[1..], id);
    }
  }

  /** `delete` keeps ids unique and items non-empty. */
  lemma {:induction false} DeleteKeepsWellFormed(s: seq<Todo>, id: Id)
    requires WellFormed(s)
    ensures WellFormed(Reduce(s, Delete(id)))
    decreases |s|
  {
    if s != [] {
      var rest := Without(s[1..], id);
      assert WellFormed(s[1..]) by {
        forall i, j | 0 <= i < j < |s[1..]| ensures s[1..][i].id != s[1..][j].id {
          assert s[1..][i] == s[i + 1] && s[1..][j] == s[j + 1];
        }
        forall i | 0 <= i < |s[1..]| ensures s[1..][i].item != "" {
          assert s[1..][i] == s[i + 1];
        }
      }
      DeleteKeepsWellFormed(s[1..], id);
      if s[0].id != id {
        var r := [s[0]] + rest;
        forall j | 0 < j < |r| ensures r[0].id != r[j].id {
          assert r[j] in s[1..];
          var k :| 0 <= k < |s[1..]| && s[1..][k] == r[j];
          assert s[k + 1] == r[j];
        }
        assert UniqueIds(r) by {
          forall i, j | 0 <= i < j < |r| ensures r[i].id != r[j].id {
            if i > 0 {
              assert r[i] == rest[i - 1] && r[j] == rest[j - 1];
            }
          }
        }
        assert NoEmptyItems(r) by {
          forall i | 0 <= i < |r| ensures r[i].item != "" {
            if i > 0 {
              assert r[i] == rest[i - 1];
            }
          }
        }
      }
    }
  }

  // --------------------------------------------------------------- saveEdit

  /** `saveEdit` keeps the length and the id at every position; matching
      entries get the new text and the others are unchanged. */
  lemma SaveEditPointwise(s: seq<Todo>, id: Id, data: string)
    ensures |Reduce(s, SaveEdit(id, data))| == |s|
    ensures forall i :: 0 <= i < |s| ==>
      Reduce(s, SaveEdit(id, data))[i] ==
        (if s[i].id == id then Todo(id, data) else s[i])
  {
  }

  /** Two edits of the same id: the last one wins. */
  lemma SaveEditLastWriteWins(s: seq<Todo>, id: Id, x: string, y: string)
    ensures Reduce(Reduce(s, SaveEdit(id, x)), SaveEdit(id, y)) == Reduce(s, SaveEdit(id, y))
  {
  }

  /** `saveEdit` with an id that is not present leaves the list unchanged. */
  lemma SaveEditAbsentIsNoop(s: seq<Todo>, id: Id, data: string)
    requires !HasId(s, id)
    ensures Reduce(s, SaveEdit(id, data)) == s
  {
  }

  /** `saveEdit` keeps ids unique, and keeps items non-empty when the new
      text is non-empty. */
  lemma SaveEditKeepsWellFormed(s: seq<Todo>, id: Id, data: string)
    requires WellFormed(s) && data != ""
    ensures WellFormed(Reduce(s, SaveEdit(id, data)))
  {
  }

  // -------------------------------------------------------------- scenarios

  /** Two adds into an empty list: newest first. */
  lemma ScenarioTwoAdds()
    ensures Run([], [Add("1", "Buy milk"), Add("2", "Walk dog")])
         == [Todo("2", "Walk dog"), Todo("1", "Buy milk")]
  {
  }

  /** Deleting an absent id leaves the list unchanged. */
  lemma ScenarioDeleteAbsent()
    ensures Reduce([Todo("1", "A")], Delete("2")) == [Todo("1", "A")]
  {
  }

  /** Editing the first of two entries rewrites only its text. */
  lemma ScenarioSaveEdit()
    ensures Reduce([Todo("1", "A"), Todo("2", "B")], SaveEdit("1", "A2"))
         == [Todo("1", "A2"), Todo("2", "B")]
  {
  }
}
