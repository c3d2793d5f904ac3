/**
 * The session's translation history: most recent first, cut to a size limit
 * after every insertion.
 */
module TranslationHistory {
  import opened Types

  const DefaultMaxSize: int := 20

  /**
   * How many entries `entries.splice(limit)` keeps of `len` when the list is
   * longer than `limit`; a negative limit counts back from the end.
   */
  function Kept(len: nat, limit: int): (k: nat)
    ensures k <= len
    ensures limit >= 0 ==> k == if len <= limit then len else limit
    ensures limit < 0 && len + limit >= 1 ==> k >= 1
  {
    if len <= limit then len
    else if limit >= 0 then limit
    else if len + limit >= 0 then len + limit
    else 0
  }

  /** The list after `add(e)`: `e` put in front, then the tail beyond the limit dropped. */
  function Added<E>(entries: seq<E>, e: E, limit: int): (r: seq<E>)
    ensures r <= [e] + entries
    ensures limit >= 0 ==> |r| == if |entries| + 1 <= limit then |entries| + 1 else limit
  {
    ([e] + entries)[..Kept(|entries| + 1, limit)]
  }

  /** The list after adding `es` in order. */
  function AddedAll<E>(entries: seq<E>, es: seq<E>, limit: int): seq<E>
    decreases |es|
  {
    if es == [] then entries else AddedAll(Added(entries, es[0], limit), es[1..], limit)
  }

  function Reverse<E>(s: seq<E>): (r: seq<E>)
    ensures |r| == |s|
    ensures forall i :: 0 <= i < |s| ==> r[i] == s[|s| - 1 - i]
  {
    if s == [] then [] else Reverse(s[1..]) + [s[0]]
  }

  /** With a positive limit the entry just added is the first one listed. */
  lemma AddedFirst<E>(entries: seq<E>, e: E, limit: int)
    requires limit >= 1
    ensures Added(entries, e, limit) != [] && Added(entries, e, limit)[0] == e
  {
  }

  /**
   * From any history within a non-negative limit, adding `es` lists them newest
   * first ahead of the old entries, keeping only the first `limit`.
   */
  lemma {:induction false} AddedAllNewestFirst<E>(entries: seq<E>, es: seq<E>, limit: int)
    requires 0 <= limit && |entries| <= limit
    ensures AddedAll(entries, es, limit) ==
      (Reverse(es) + entries)[..if |es| + |entries| <= limit then |es| + |entries| else limit]
    decreases |es|
  {
    if es != [] {
      var e, rest := es[0], es[1..];
      var next := Added(entries, e, limit);
      AddedAllNewestFirst(next, rest, limit);
      var whole := Reverse(es) + entries;
      assert Reverse(es) == Reverse(rest) + [e];
      var m := if |es| + |entries| <= limit then |es| + |entries| else limit;
      var m' := if |rest| + |next| <= limit then |rest| + |next| else limit;
      assert m' == m;
      forall i | 0 <= i < m ensures (Reverse(rest) + next)[i] == whole[i] {
        if i >= |rest| {
          assert (Reverse(rest) + next)[i] == next[i - |rest|] == ([e] + entries)[i - |rest|];
        }
      }
    }
  }

  /** Adding `es` and then `e` is adding `es + [e]`. */
  lemma {:induction false} AddedAllSnoc<E>(entries: seq<E>, es: seq<E>, e: E, limit: int)
    ensures AddedAll(entries, es + [e], limit) == Added(AddedAll(entries, es, limit), e, limit)
    decreases |es|
  {
    if es == [] {
      assert es + [e] == [e];
      assert [e][1..] == [];
    } else {
      assert (es + [e])[1..] == es[1..] + [e];
      AddedAllSnoc(Added(entries, es[0], limit), es[1..], e, limit);
    }
  }

  /** The history object: its entry list and its size limit. */
  class History {
    var entries: seq<HistoryEntry>
    var limit: int

    /** `createTranslationHistory(maxSize)`: an empty history. */
    constructor(maxSize: int)
      ensures entries == [] && limit == maxSize
    {
      entries := [];
      limit := maxSize;
    }

    /** `add`: the new entry in front, the oldest beyond the limit dropped. */
    method Add(e: HistoryEntry)
      modifies this
      ensures entries == Added(old(entries), e, limit) && limit == old(limit)
      ensures limit >= 0 ==> |entries| <= limit
      ensures limit >= 1 ==> entries[0] == e && entries[1..] == old(entries)[..|entries| - 1]
    {
      entries := [e] + entries;
      if |entries| > limit {
        entries := entries[..Kept(|entries|, limit)];
      }
    }

    /** `getAll`: the entries, newest first, as a value the caller cannot alias. */
    method GetAll() returns (r: seq<HistoryEntry>)
      ensures r == entries
    {
      r := entries;
    }

    /** `clear`: no entries left; the limit stays. */
    method Clear()
      modifies this
      ensures entries == [] && limit == old(limit)
    {
      entries := [];
    }

    /** `size`: the number of entries `getAll` lists. */
    method Size() returns (n: nat)
      ensures n == |entries|
    {
      n := |entries|;
    }
  }
}
