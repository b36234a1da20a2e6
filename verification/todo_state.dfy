/**
 * The entities of the to-do list store: one entry of the list, the actions
 * the list reducer understands, and the predicates that describe a
 * well-formed list (unique ids, no empty item text).
 */
module TodoState {

  /** An entry identifier. The application draws it from a UUID generator. */
  type Id = string

  /** One to-do entry: its identifier and its text. */
  datatype Todo = Todo(id: Id, item: string)

  /** The four action types the reducer handles. */
  datatype Action =
    | SetTodo(list: seq<Todo>)          // replace the whole list (rehydration)
    | Add(id: Id, item: string)         // put a new entry at the front
    | Delete(id: Id)                    // drop every entry with this id
    | SaveEdit(id: Id, data: string)    // rewrite the text of entries with this id

  /** Some entry of `s` carries `id`. */
  predicate HasId(s: seq<Todo>, id: Id)
  {
    exists i :: 0 <= i < |s| && s[i].id == id
  }

  /** No two positions of `s` carry the same id. */
  predicate UniqueIds(s: seq<Todo>)
  {
    forall i, j :: 0 <= i < j < |s| ==> s[i].id != s[j].id
  }

  /** No entry of `s` has empty text. */
  predicate NoEmptyItems(s: seq<Todo>)
  {
    forall i :: 0 <= i < |s| ==> s[i].item != ""
  }

  /** The invariant the user-facing operations keep on the list. */
  predicate WellFormed(s: seq<Todo>)
  {
    UniqueIds(s) && NoEmptyItems(s)
  }

  /** `r` is obtained from `s` by dropping some entries, keeping the order of the rest. */
  predicate IsSubsequence(r: seq<Todo>, s: seq<Todo>)
    decreases |s|
  {
    r == [] ||
    (s != [] &&
     ((r[0] == s[0] && IsSubsequence(r[1..], s[1..])) || IsSubsequence(r, s[1..])))
  }

  /** The entries of `s` in reverse order. */
  function Reversed(s: seq<Todo>): (r: seq<Todo>)
    ensures |r| == |s|
  {
    if s == [] then [] else Reversed(s[1..]) + [s[0]]
  }

  /** Reversal maps position `k` to position `|s| - 1 - k`. */
  lemma {:induction false} ReversedAt(s: seq<Todo>, k: nat)
    requires k < |s|
    ensures Reversed(s)[k] == s[|s| - 1 - k]
  {
    if k < |s| - 1 {
      ReversedAt(s[1..], k);
    }
  }

  /** Reversing a list with unique ids gives a list with unique ids. */
  lemma ReversedUniqueIds(s: seq<Todo>)
    requires UniqueIds(s)
    ensures UniqueIds(Reversed(s))
  {
    var r := Reversed(s);
    forall i, j | 0 <= i < j < |r| ensures r[i].id != r[j].id {
      ReversedAt(s, i);
      ReversedAt(s, j);
    }
  }

  /** A subsequence never holds an entry more often than the list it comes from. */
  lemma {:induction false} SubsequenceMultiset(r: seq<Todo>, s: seq<Todo>)
    requires IsSubsequence(r, s)
    ensures multiset(r) <= multiset(s)
    decreases |s|
  {
    if r == [] {
    } else if r[0] == s[0] && IsSubsequence(r[1..], s[1..]) {
      SubsequenceMultiset(r[1..], s[1..]);
      assert r == [r[0]] + r[1..];
      assert s == [s[0]] + s[1..];
    } else {
      SubsequenceMultiset(r, s[1..]);
      assert s == [s[0]] + s[1..];
    }
  }
}
