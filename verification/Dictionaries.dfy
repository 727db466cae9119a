/**
 The dictionaries received so far and the maintained count of complete ones
 (src/rde/rde_dictionary_manager.cpp).
 */
module Dictionaries {
  import opened Bytes
  import opened Wrappers

  const ANNOTATION_RESOURCE_ID := 0

  datatype DictionaryEntry = DictionaryEntry(valid: bool, data: seq<byte>)

  type Store = map<nat, DictionaryEntry>

  function Start(m: Store, id: nat, data: seq<byte>): Store {
    m[id := DictionaryEntry(false, data)]
  }

  function Complete(m: Store, id: nat): Store {
    if id in m then m[id := DictionaryEntry(true, m[id].data)] else m
  }

  function Append(m: Store, id: nat, data: seq<byte>): Store {
    if id in m then m[id := DictionaryEntry(false, m[id].data + data)] else m
  }

  function InvalidateAll(m: Store): Store {
    map id | id in m :: DictionaryEntry(false, m[id].data)
  }

  /** getDictionary: only complete dictionaries can be had. */
  function Retrieve(m: Store, id: nat): (d: Option<seq<byte>>) {
    if id in m && m[id].valid then Some(m[id].data) else None
  }

  function ValidIds(m: Store): (s: set<nat>)
    ensures forall id :: id in s <==> Retrieve(m, id).Some?
  {
    set id | id in m && m[id].valid
  }

  lemma SetEntry(m: Store, id: nat, e: DictionaryEntry)
    ensures |ValidIds(m[id := e])| ==
            |ValidIds(m)| - (if id in m && m[id].valid then 1 else 0) + (if e.valid then 1 else 0)
  {
    var rest := ValidIds(m) - {id};
    assert ValidIds(m[id := e]) == if e.valid then rest + {id} else rest;
    assert ValidIds(m) == if id in m && m[id].valid then rest + {id} else rest;
  }

  class DictionaryManager {
    var dictionaries: Store
    var validDictionaryCount: nat

    ghost predicate Valid()
      reads this
    {
      validDictionaryCount == |ValidIds(dictionaries)|
    }

    constructor ()
      ensures Valid() && dictionaries == map[]
    {
      dictionaries := map[];
      validDictionaryCount := 0;
    }

    method StartDictionaryEntry(resourceId: nat, data: seq<byte>)
      requires Valid()
      modifies this
      ensures Valid() && dictionaries == Start(old(dictionaries), resourceId, data)
    {
      SetEntry(dictionaries, resourceId, DictionaryEntry(false, data));
      if resourceId !in dictionaries {
        dictionaries := dictionaries[resourceId := DictionaryEntry(false, data)];
        return;
      }
      InvalidateDictionaryEntry(resourceId);
      SetEntry(dictionaries, resourceId, DictionaryEntry(false, data));
      dictionaries := dictionaries[resourceId := dictionaries[resourceId].(data := data)];
    }

    method MarkDataComplete(resourceId: nat) returns (found: bool)
      requires Valid()
      modifies this
      ensures Valid() && dictionaries == Complete(old(dictionaries), resourceId)
      ensures found <==> resourceId in old(dictionaries)
    {
      if resourceId !in dictionaries {
        return false;
      }
      ValidateDictionaryEntry(resourceId);
      return true;
    }

    method AddDictionaryData(resourceId: nat, data: seq<byte>) returns (found: bool)
      requires Valid()
      modifies this
      ensures Valid() && dictionaries == Append(old(dictionaries), resourceId, data)
      ensures found <==> resourceId in old(dictionaries)
    {
      if resourceId !in dictionaries {
        return false;
      }
      InvalidateDictionaryEntry(resourceId);
      var entry := dictionaries[resourceId];
      SetEntry(dictionaries, resourceId, entry.(data := entry.data + data));
      dictionaries := dictionaries[resourceId := entry.(data := entry.data + data)];
      return true;
    }

    method GetDictionary(resourceId: nat) returns (d: Option<seq<byte>>)
      ensures d == Retrieve(dictionaries, resourceId)
    {
      if resourceId !in dictionaries {
        return None;
      }
      if !dictionaries[resourceId].valid {
        return None;
      }
      return Some(dictionaries[resourceId].data);
    }

    method GetDictionaryCount() returns (n: nat)
      requires Valid()
      ensures n == |ValidIds(dictionaries)|
    {
      return validDictionaryCount;
    }

    method InvalidateDictionaries()
      modifies this
      ensures Valid() && dictionaries == InvalidateAll(old(dictionaries)) && validDictionaryCount == 0
    {
      ghost var was := dictionaries;
      var keys := dictionaries.Keys;
      while keys != {}
        invariant dictionaries.Keys == was.Keys && keys <= was.Keys
        invariant forall id :: id in was ==>
                    dictionaries[id] == if id in keys then was[id] else was[id].(valid := false)
        decreases keys
      {
        var id :| id in keys;
        dictionaries := dictionaries[id := dictionaries[id].(valid := false)];
        keys := keys - {id};
      }
      assert dictionaries == InvalidateAll(was);
      assert ValidIds(dictionaries) == {};
      validDictionaryCount := 0;
    }

    method InvalidateDictionaryEntry(id: nat)
      requires Valid() && id in dictionaries
      modifies this
      ensures Valid() && dictionaries == old(dictionaries)[id := old(dictionaries)[id].(valid := false)]
    {
      SetEntry(dictionaries, id, dictionaries[id].(valid := false));
      if dictionaries[id].valid {
        assert id in ValidIds(dictionaries);
        validDictionaryCount := validDictionaryCount - 1;
      }
      dictionaries := dictionaries[id := dictionaries[id].(valid := false)];
    }

    method ValidateDictionaryEntry(id: nat)
      requires Valid() && id in dictionaries
      modifies this
      ensures Valid() && dictionaries == old(dictionaries)[id := old(dictionaries)[id].(valid := true)]
    {
      SetEntry(dictionaries, id, dictionaries[id].(valid := true));
      if !dictionaries[id].valid {
        validDictionaryCount := validDictionaryCount + 1;
      }
      dictionaries := dictionaries[id := dictionaries[id].(valid := true)];
    }
  }
}
