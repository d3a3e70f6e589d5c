/** A directory block: a list of named entries with distinct names, as setEntry, removeEntry
    and listDirectory maintain it. Names are decoded keys (Keys.EscapedNamesIdentifyKeys), and
    the list is kept in the order in which sortEntries presents it. */
module Directory {
  import opened Keys

  datatype Option<+T> = None | Some(value: T)

  datatype Entry<T> = Entry(name: Str, val: T)

  ghost predicate Sorted<T>(d: seq<Entry<T>>) {
    forall i, j :: 0 <= i < j < |d| ==> Less(d[i].name, d[j].name)
  }

  ghost predicate HasName<T>(d: seq<Entry<T>>, name: Str) {
    exists i :: 0 <= i < |d| && d[i].name == name
  }

  /** The entry an exact-name search finds. */
  function Lookup<T>(d: seq<Entry<T>>, name: Str): Option<T> {
    if d == [] then None
    else if d[0].name == name then Some(d[0].val)
    else Lookup(d[1..], name)
  }

  /** setEntry: replaces an entry of the same name, otherwise adds it in name order. */
  function Put<T>(d: seq<Entry<T>>, name: Str, val: T): seq<Entry<T>> {
    if d == [] || Less(name, d[0].name) then [Entry(name, val)] + d
    else if d[0].name == name then [Entry(name, val)] + d[1..]
    else [d[0]] + Put(d[1..], name, val)
  }

  /** setEntry followed by listDirectory, which skips an entry whose name is empty. */
  function SetEntry<T>(d: seq<Entry<T>>, name: Str, val: T): seq<Entry<T>> {
    if name == [] then d else Put(d, name, val)
  }

  /** removeEntry: filters the name out. */
  function Remove<T>(d: seq<Entry<T>>, name: Str): seq<Entry<T>> {
    if d == [] then []
    else if d[0].name == name then Remove(d[1..], name)
    else [d[0]] + Remove(d[1..], name)
  }

  lemma {:induction false} LookupNone<T>(d: seq<Entry<T>>, name: Str)
    requires forall i :: 0 <= i < |d| ==> d[i].name != name
    ensures Lookup(d, name) == None
  {
    if d != [] {
      LookupNone(d[1..], name);
    }
  }

  lemma {:induction false} LookupSome<T>(d: seq<Entry<T>>, i: nat)
    requires Sorted(d) && i < |d|
    ensures Lookup(d, d[i].name) == Some(d[i].val)
  {
    LessIsIrreflexive();
    if i > 0 {
      assert Less(d[0].name, d[i].name);
      assert d[i] == d[1..][i - 1];
      LookupSome(d[1..], i - 1);
    }
  }

  lemma {:induction false} LookupAppend<T>(a: seq<Entry<T>>, b: seq<Entry<T>>, name: Str)
    ensures Lookup(a + b, name) == if Lookup(a, name).Some? then Lookup(a, name) else Lookup(b, name)
  {
    if a == [] {
      assert a + b == b;
    } else {
      assert (a + b)[1..] == a[1..] + b;
      LookupAppend(a[1..], b, name);
    }
  }

  lemma {:induction false} LookupFound<T>(d: seq<Entry<T>>, name: Str)
    ensures Lookup(d, name).Some? <==> HasName(d, name)
  {
    if d != [] && d[0].name != name {
      LookupFound(d[1..], name);
      if HasName(d[1..], name) {
        var i :| 0 <= i < |d[1..]| && d[1..][i].name == name;
        assert d[i + 1].name == name;
      }
      forall i | 0 <= i < |d| && d[i].name == name
        ensures HasName(d[1..], name)
      {
        assert d[1..][i - 1].name == name;
      }
    }
  }

  /** A sorted directory is a finite map: two with the same lookups are equal. */
  lemma {:induction false} SameLookups<T>(a: seq<Entry<T>>, b: seq<Entry<T>>)
    requires Sorted(a) && Sorted(b)
    requires forall name :: Lookup(a, name) == Lookup(b, name)
    ensures a == b
  {
    LessIsStrictTotalOrder();
    if a == [] || b == [] {
      if a != [] { LookupSome(a, 0); }
      if b != [] { LookupSome(b, 0); }
    } else {
      LookupSome(a, 0);
      LookupSome(b, 0);
      LookupFound(a, b[0].name);
      LookupFound(b, a[0].name);
      assert a[0] == b[0];
      forall name
        ensures Lookup(a[1..], name) == Lookup(b[1..], name)
      {
        if name == a[0].name {
          LookupNone(a[1..], name);
          LookupNone(b[1..], name);
        } else {
          assert Lookup(a, name) == Lookup(b, name);
        }
      }
      SameLookups(a[1..], b[1..]);
    }
  }

  lemma {:induction false} PutLookup<T>(d: seq<Entry<T>>, name: Str, val: T, x: Str)
    requires Sorted(d)
    ensures Lookup(Put(d, name, val), x) == if x == name then Some(val) else Lookup(d, x)
  {
    if d == [] || Less(name, d[0].name) {
      assert ([Entry(name, val)] + d)[1..] == d;
    } else if d[0].name == name {
      assert ([Entry(name, val)] + d[1..])[1..] == d[1..];
    } else {
      PutLookup(d[1..], name, val, x);
      var r := Put(d[1..], name, val);
      assert ([d[0]] + r)[1..] == r;
    }
  }

  lemma {:induction false} PutMembers<T>(d: seq<Entry<T>>, name: Str, val: T)
    requires Sorted(d)
    ensures forall i :: 0 <= i < |Put(d, name, val)| ==>
              Put(d, name, val)[i].name == name || Put(d, name, val)[i] in d
    ensures |Put(d, name, val)| == |d| + if Lookup(d, name).Some? then 0 else 1
  {
    if d == [] || Less(name, d[0].name) {
      BelowAll(d, name);
      LookupNone(d, name);
    } else if d[0].name != name {
      PutMembers(d[1..], name, val);
      var r := Put(d[1..], name, val);
      forall i | 0 <= i < |r| ensures r[i].name == name || r[i] in d {
        if r[i].name != name { assert r[i] in d[1..]; }
      }
    }
  }

  lemma BelowAll<T>(d: seq<Entry<T>>, name: Str)
    requires Sorted(d) && (d != [] ==> Less(name, d[0].name))
    ensures forall i :: 0 <= i < |d| ==> Less(name, d[i].name) && d[i].name != name
  {
    LessIsIrreflexive();
    forall i | 0 <= i < |d| ensures Less(name, d[i].name) {
      if i > 0 { LessIsTransitive(name, d[0].name, d[i].name); }
    }
  }

  lemma {:induction false} PutSorted<T>(d: seq<Entry<T>>, name: Str, val: T)
    requires Sorted(d)
    ensures Sorted(Put(d, name, val))
  {
    if d == [] || Less(name, d[0].name) {
      BelowAll(d, name);
    } else if d[0].name != name {
      LessIsStrictTotalOrder();
      PutSorted(d[1..], name, val);
      PutMembers(d[1..], name, val);
      var r := Put(d[1..], name, val);
      forall i | 0 <= i < |r| ensures Less(d[0].name, r[i].name) {
        if r[i].name != name { assert r[i] in d[1..]; }
      }
    }
  }

  /** Put is map update and keeps the order; no other name appears. */
  lemma PutIsUpdate<T>(d: seq<Entry<T>>, name: Str, val: T)
    requires Sorted(d)
    ensures Sorted(Put(d, name, val))
    ensures forall x :: Lookup(Put(d, name, val), x) == if x == name then Some(val) else Lookup(d, x)
    ensures forall i :: 0 <= i < |Put(d, name, val)| ==>
              Put(d, name, val)[i].name == name || Put(d, name, val)[i] in d
    ensures |Put(d, name, val)| == |d| + if HasName(d, name) then 0 else 1
  {
    PutSorted(d, name, val);
    PutMembers(d, name, val);
    LookupFound(d, name);
    forall x ensures Lookup(Put(d, name, val), x) == if x == name then Some(val) else Lookup(d, x) {
      PutLookup(d, name, val, x);
    }
  }

  lemma {:induction false} RemoveIsDelete<T>(d: seq<Entry<T>>, name: Str)
    requires Sorted(d)
    ensures Sorted(Remove(d, name))
    ensures forall x :: Lookup(Remove(d, name), x) == if x == name then None else Lookup(d, x)
    ensures forall i :: 0 <= i < |Remove(d, name)| ==> Remove(d, name)[i] in d && Remove(d, name)[i].name != name
  {
    LessIsStrictTotalOrder();
    if d != [] {
      RemoveIsDelete(d[1..], name);
      var r := Remove(d[1..], name);
      if d[0].name != name {
        assert ([d[0]] + r)[1..] == r;
      } else {
        LookupNone(d[1..], name);
      }
      forall i | 0 <= i < |r|
        ensures r[i] in d
        ensures Less(d[0].name, r[i].name)
      {
        assert r[i] in d[1..];
      }
    }
  }

  lemma {:induction false} RemoveAt<T>(d: seq<Entry<T>>, i: nat)
    requires Sorted(d) && i < |d|
    ensures Remove(d, d[i].name) == d[..i] + d[i + 1..]
  {
    LessIsIrreflexive();
    if i == 0 {
      RemoveAbsent(d[1..], d[0].name);
    } else {
      assert Less(d[0].name, d[i].name);
      RemoveAt(d[1..], i - 1);
      assert d[1..][i - 1] == d[i];
      assert d[..i] == [d[0]] + d[1..][..i - 1];
      assert d[i + 1..] == d[1..][i..];
    }
  }

  lemma {:induction false} RemoveAbsent<T>(d: seq<Entry<T>>, name: Str)
    requires forall i :: 0 <= i < |d| ==> d[i].name != name
    ensures Remove(d, name) == d
  {
    if d != [] {
      RemoveAbsent(d[1..], name);
    }
  }

  lemma {:induction false} PutAt<T>(d: seq<Entry<T>>, i: nat, val: T)
    requires Sorted(d) && i < |d|
    ensures Put(d, d[i].name, val) == d[i := Entry(d[i].name, val)]
  {
    LessIsStrictTotalOrder();
    if i > 0 {
      assert Less(d[0].name, d[i].name);
      PutAt(d[1..], i - 1, val);
      assert d[1..][i - 1] == d[i];
    }
  }

  /** Put where the new name falls between position i - 1 and position i. */
  lemma {:induction false} PutBetween<T>(d: seq<Entry<T>>, i: nat, name: Str, val: T)
    requires i <= |d|
    requires forall j :: 0 <= j < i ==> Less(d[j].name, name)
    requires i < |d| ==> Less(name, d[i].name)
    ensures Put(d, name, val) == d[..i] + [Entry(name, val)] + d[i..]
  {
    if i > 0 {
      assert Less(d[0].name, name);
      PutBetween(d[1..], i - 1, name, val);
      PutAfterFirst(d, name, val);
      TailParts(d, i, Entry(name, val));
    } else {
      assert d[..i] + [Entry(name, val)] + d[i..] == [Entry(name, val)] + d;
    }
  }

  /** Put passes over a smaller first name. */
  lemma PutAfterFirst<T>(d: seq<Entry<T>>, name: Str, val: T)
    requires d != [] && Less(d[0].name, name)
    ensures Put(d, name, val) == [d[0]] + Put(d[1..], name, val)
  {
    LessIsStrictTotalOrder();
  }

  lemma TailParts<T>(d: seq<T>, i: nat, x: T)
    requires 0 < i <= |d|
    ensures [d[0]] + (d[1..][..i - 1] + [x] + d[1..][i - 1..]) == d[..i] + [x] + d[i..]
  {
    assert d[..i] == [d[0]] + d[1..][..i - 1];
    assert d[i..] == d[1..][i - 1..];
  }

  /** Put on a concatenation acts on the part the name belongs to. */
  lemma {:induction false} PutLeft<T>(a: seq<Entry<T>>, b: seq<Entry<T>>, name: Str, val: T)
    requires forall i :: 0 <= i < |b| ==> Less(name, b[i].name)
    ensures Put(a + b, name, val) == Put(a, name, val) + b
  {
    LessIsStrictTotalOrder();
    if a == [] {
      assert a + b == b;
    } else {
      assert (a + b)[1..] == a[1..] + b;
      PutLeft(a[1..], b, name, val);
    }
  }

  lemma {:induction false} PutRight<T>(a: seq<Entry<T>>, b: seq<Entry<T>>, name: Str, val: T)
    requires forall i :: 0 <= i < |a| ==> Less(a[i].name, name)
    ensures Put(a + b, name, val) == a + Put(b, name, val)
  {
    if a == [] {
      assert a + b == b;
    } else {
      assert (a + b)[1..] == a[1..] + b;
      PutRight(a[1..], b, name, val);
      PutAfterFirst(a + b, name, val);
      assert [a[0]] + (a[1..] + Put(b, name, val)) == a + Put(b, name, val);
    }
  }

  lemma {:induction false} RemoveAppend<T>(a: seq<Entry<T>>, b: seq<Entry<T>>, name: Str)
    ensures Remove(a + b, name) == Remove(a, name) + Remove(b, name)
  {
    if a == [] {
      assert a + b == b;
    } else {
      assert (a + b)[1..] == a[1..] + b;
      RemoveAppend(a[1..], b, name);
    }
  }
}
