/** Numeric ids for public keys. */
module UniqueIds {
  import opened Directory
  import opened Keys

  /** New ids count up from 0; ids read from a file are signed 32-bit numbers. */
  type Id = i: int | i >= -0x8000_0000

  /** What String.prototype.trim strips. */
  predicate IsSpace(c: Unit) {
    || 0x9 <= c <= 0xD || c == 0x20 || c == 0xA0 || c == 0x1680 || 0x2000 <= c <= 0x200A
    || c == 0x2028 || c == 0x2029 || c == 0x202F || c == 0x205F || c == 0x3000 || c == 0xFEFF
  }

  /** The white space and line terminators of ECMA-262, sections 12.2 and 12.3, one by one. */
  lemma SpaceExactly(c: Unit)
    ensures (IsSpace(c) <==>
             c in {0x0009, 0x000A, 0x000B, 0x000C, 0x000D, 0x0020, 0x00A0, 0x1680, 0x2000, 0x2001, 0x2002, 0x2003,
                   0x2004, 0x2005, 0x2006, 0x2007, 0x2008, 0x2009, 0x200A, 0x2028, 0x2029, 0x202F, 0x205F, 0x3000,
                   0xFEFF})
  {
  }

  /** Empty or whitespace-only: no id is given. */
  predicate IsBlank(s: Str) {
    forall i :: 0 <= i < |s| ==> IsSpace(s[i])
  }

  class UniqueIds {
    var strToUniqueId: map<Str, Id>
    var uniqueIdToStr: map<Id, Str>
    var currentUniqueId: nat

    /** The two maps are inverse to each other, and no id is handed out twice, even after its
        string was removed. */
    ghost predicate Valid()
      reads this
    {
      && (forall s :: s in strToUniqueId ==> strToUniqueId[s] in uniqueIdToStr && uniqueIdToStr[strToUniqueId[s]] == s)
      && (forall i :: i in uniqueIdToStr ==> uniqueIdToStr[i] in strToUniqueId && strToUniqueId[uniqueIdToStr[i]] == i)
      && (forall i :: i in uniqueIdToStr ==> i < currentUniqueId && !IsBlank(uniqueIdToStr[i]))
    }

    constructor ()
      ensures Valid() && strToUniqueId == map[] && uniqueIdToStr == map[] && currentUniqueId == 0
    {
      strToUniqueId, uniqueIdToStr, currentUniqueId := map[], map[], 0;
    }

    /** None: the source throws. */
    method GetId(s: Str) returns (id: Option<Id>)
      requires Valid()
      modifies this
      ensures Valid() && (id.None? <==> IsBlank(s))
      ensures id.None? ==> unchanged(this)
      ensures id.Some? ==> uniqueIdToStr == old(uniqueIdToStr)[id.value := s]
      ensures id.Some? && s in old(strToUniqueId) ==> unchanged(this)
      ensures id.Some? && s !in old(strToUniqueId) ==>
                id.value == old(currentUniqueId) && currentUniqueId == id.value + 1
    {
      if IsBlank(s) { return None; }
      if s in strToUniqueId { return Some(strToUniqueId[s]); }
      var newId := currentUniqueId;
      currentUniqueId := currentUniqueId + 1;
      strToUniqueId := strToUniqueId[s := newId];
      uniqueIdToStr := uniqueIdToStr[newId := s];
      id := Some(newId);
    }

    /** None: the source throws. */
    function Name(id: Id): (s: Option<Str>)
      requires Valid()
      reads this
      ensures s.Some? <==> exists t :: t in strToUniqueId && strToUniqueId[t] == id
      ensures s.Some? ==> s.value in strToUniqueId && strToUniqueId[s.value] == id
    {
      if id in uniqueIdToStr then Some(uniqueIdToStr[id]) else None
    }

    method Remove(id: Id)
      requires Valid()
      modifies this`strToUniqueId, this`uniqueIdToStr
      ensures Valid() && uniqueIdToStr == old(uniqueIdToStr) - {id}
    {
      if id in uniqueIdToStr {
        var s := uniqueIdToStr[id];
        uniqueIdToStr := uniqueIdToStr - {id};
        strToUniqueId := strToUniqueId - {s};
      }
    }
  }
}
