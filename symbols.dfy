/**
 * The interned-symbol table of symbol.c: a fixed array of string slots
 * scanned linearly, with a count of the slots in use.
 */
module Symbols {
  import opened Wrappers

  /** Capacity of the table (MAX_SYMBOLS). */
  const MAX_SYMBOLS: nat := 1000

  /** No string is stored twice. */
  predicate Distinct(entries: seq<string>)
  {
    forall i, j :: 0 <= i < j < |entries| ==> entries[i] != entries[j]
  }

  /** The smallest index holding `s`, or -1 when `s` is not stored. */
  function FirstIndexOf(entries: seq<string>, s: string): (r: int)
    ensures -1 <= r < |entries|
    ensures 0 <= r ==> entries[r] == s && forall k :: 0 <= k < r ==> entries[k] != s
    ensures r == -1 <==> s !in entries
  {
    if entries == [] then -1
    else if entries[0] == s then 0
    else
      var k := FirstIndexOf(entries[1..], s);
      assert s in entries[1..] ==> s in entries;
      assert forall k :: 1 <= k < |entries| ==> entries[k] == entries[1..][k - 1];
      if k == -1 then -1 else k + 1
  }

  /** Appending a new string leaves every earlier answer alone and makes the new one findable. */
  lemma {:induction false} FirstIndexOfAppend(entries: seq<string>, s: string, t: string)
    ensures FirstIndexOf(entries + [s], t) ==
            if t in entries then FirstIndexOf(entries, t)
            else if t == s then |entries|
            else -1
  {
    if entries != [] {
      assert (entries + [s])[1..] == entries[1..] + [s];
      FirstIndexOfAppend(entries[1..], s, t);
      assert t in entries <==> (entries[0] == t || t in entries[1..]);
    }
  }

  /** However the table grows afterwards, a string already stored keeps its id. */
  lemma {:induction false} FirstIndexOfExtend(entries: seq<string>, more: seq<string>, s: string)
    requires s in entries
    ensures FirstIndexOf(entries + more, s) == FirstIndexOf(entries, s)
  {
    if entries[0] != s {
      assert (entries + more)[1..] == entries[1..] + more;
      assert s in entries[1..];
      FirstIndexOfExtend(entries[1..], more, s);
    }
  }

  /** In a table without duplicates the id of an entry is its position. */
  lemma FirstIndexOfDistinct(entries: seq<string>, i: int)
    requires Distinct(entries) && 0 <= i < |entries|
    ensures FirstIndexOf(entries, entries[i]) == i
  {
  }

  /** The global table: g_symbol_array, g_symbol_len_array and g_num_symbols. */
  class SymbolTable {
    /** The stored copies; a slot never written is NULL (static storage is zero-filled). */
    const names: array<Option<string>>
    /** The stored lengths. */
    const lengths: array<int>
    /** Number of slots in use. */
    var count: nat
    /** The strings stored so far, in slot order. */
    ghost var entries: seq<string>

    ghost predicate Valid()
      reads this, names, lengths
    {
      names.Length == MAX_SYMBOLS && lengths.Length == MAX_SYMBOLS &&
      count == |entries| <= MAX_SYMBOLS &&
      (forall i :: 0 <= i < count ==> names[i] == Some(entries[i]) && lengths[i] == |entries[i]|) &&
      (forall i :: count <= i < MAX_SYMBOLS ==> names[i] == None)
    }

    /** The zero-filled table before any symbol is added. */
    constructor ()
      ensures Valid() && fresh(names) && fresh(lengths)
      ensures entries == []
    {
      names := new Option<string>[MAX_SYMBOLS](_ => None);
      lengths := new int[MAX_SYMBOLS](_ => 0);
      count := 0;
      entries := [];
    }

    /** symbol_get: any id below the capacity is accepted; a slot not yet used gives NULL. */
    method Get(id: int) returns (r: Option<string>)
      requires Valid() && 0 <= id < MAX_SYMBOLS
      ensures id < |entries| ==> r == Some(entries[id])
      ensures |entries| <= id ==> r == None
    {
      r := names[id];
    }

    /** symbol_find: the first slot with the same length and the same characters, or -1. */
    method Find(s: string) returns (id: int)
      requires Valid()
      ensures -1 <= id < |entries|
      ensures 0 <= id ==> entries[id] == s && forall k :: 0 <= k < id ==> entries[k] != s
      ensures id == -1 <==> s !in entries
      ensures id == FirstIndexOf(entries, s)
    {
      var i := 0;
      while i < count
        invariant 0 <= i <= count
        invariant forall k :: 0 <= k < i ==> entries[k] != s
      {
        if |s| == lengths[i] && names[i].value == s {
          return i;
        }
        i := i + 1;
      }
      return -1;
    }

    /** symbol_add: stores a copy in the next free slot and returns its index. */
    method Add(s: string) returns (id: int)
      requires Valid() && count < MAX_SYMBOLS
      modifies this, names, lengths
      ensures Valid()
      ensures id == old(count) && entries == old(entries) + [s]
    {
      names[count] := Some(s);
      lengths[count] := |s|;
      entries := entries + [s];
      count := count + 1;
      id := count - 1;
    }

    /**
     * Find-then-add, the way make_symbol interns a name: equal names get
     * equal ids and the table never gains a duplicate.
     */
    method Intern(s: string) returns (id: int)
      requires Valid() && (s in entries || count < MAX_SYMBOLS)
      modifies this, names, lengths
      ensures Valid()
      ensures entries == if s in old(entries) then old(entries) else old(entries) + [s]
      ensures 0 <= id < |entries| && entries[id] == s
      ensures id == FirstIndexOf(entries, s)
      ensures Distinct(old(entries)) ==> Distinct(entries)
    {
      id := Find(s);
      if id < 0 {
        id := Add(s);
        FirstIndexOfAppend(old(entries), s, s);
      }
    }
  }
}
