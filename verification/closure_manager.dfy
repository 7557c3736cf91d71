/** `ClosureSerializerManager`: a registry of closure serializer instances keyed
    by their class name, with a fixed preference order (Opis, then SuperClosure)
    and the first registered instance as the fallback. */
module ClosureManager {
  import opened Wrappers

  /** A closure serializer instance, known by its class and an identity that
      tells two instances of the same class apart. */
  datatype Serializer = Serializer(cls: string, identity: nat)

  /** The instances in registration order; a PHP array keyed by class name. */
  datatype Manager = Manager(entries: seq<(string, Serializer)>)

  const OpisName: string := "Zumba\\JsonSerializer\\ClosureSerializer\\OpisClosureSerializer"
  const SuperName: string := "Zumba\\JsonSerializer\\ClosureSerializer\\SuperClosureSerializer"

  /** The `$preferred` list, most preferred first. */
  const PreferenceOrder: seq<string> := [OpisName, SuperName]

  const Empty: Manager := Manager([])

  function Names(es: seq<(string, Serializer)>): (ns: seq<string>)
    ensures |ns| == |es|
    ensures forall i | 0 <= i < |es| :: ns[i] == es[i].0
  {
    if |es| == 0 then [] else [es[0].0] + Names(es[1..])
  }

  /** The array has one entry per class name, each holding an instance of that class. */
  predicate Valid(m: Manager) {
    && Distinct(Names(m.entries))
    && (forall i | 0 <= i < |m.entries| :: m.entries[i].1.cls == m.entries[i].0)
  }

  predicate Distinct(ns: seq<string>) {
    forall i, j | 0 <= i < j < |ns| :: ns[i] != ns[j]
  }

  /** `$this->closureSerializer[$name]` when it is set. */
  function Find(es: seq<(string, Serializer)>, name: string): (r: Option<Serializer>)
    ensures r.Some? <==> name in Names(es)
  {
    if |es| == 0 then None
    else if es[0].0 == name then Some(es[0].1)
    else Find(es[1..], name)
  }

  /** `$this->closureSerializer[$classname] = $closureSerializer`: replaces in
      place when the class is registered, appends otherwise. */
  function Store(es: seq<(string, Serializer)>, name: string, s: Serializer): (r: seq<(string, Serializer)>)
    ensures Names(r) == if name in Names(es) then Names(es) else Names(es) + [name]
  {
    if |es| == 0 then [(name, s)]
    else if es[0].0 == name then [(name, s)] + es[1..]
    else [es[0]] + Store(es[1..], name, s)
  }

  /** `addSerializer`: stores the instance under its class name and returns the
      manager. */
  function AddSerializer(m: Manager, s: Serializer): (r: Manager)
    requires Valid(m)
    ensures Valid(r)
    ensures Find(r.entries, s.cls) == Some(s)
    ensures forall name | name != s.cls :: Find(r.entries, name) == Find(m.entries, name)
    ensures |r.entries| == if s.cls in Names(m.entries) then |m.entries| else |m.entries| + 1
  {
    StoreSpec(m.entries, s.cls, s);
    StoreValid(m, s);
    Manager(Store(m.entries, s.cls, s))
  }

  /** `getSerializer($classname)`. */
  function GetSerializer(m: Manager, name: string): (r: Option<Serializer>)
    requires Valid(m)
    ensures r.Some? <==> exists i | 0 <= i < |m.entries| :: m.entries[i].0 == name
    ensures r.Some? ==> r.value.cls == name && (exists i | 0 <= i < |m.entries| :: m.entries[i] == (name, r.value))
  {
    FindSpec(m.entries, name);
    Find(m.entries, name)
  }

  /** The preference rule as a function: the reference `GetPreferredSerializer` is checked against. */
  function Preferred(m: Manager): Option<Serializer> {
    if |m.entries| == 0 then None
    else if Find(m.entries, OpisName).Some? then Find(m.entries, OpisName)
    else if Find(m.entries, SuperName).Some? then Find(m.entries, SuperName)
    else Some(m.entries[0].1)
  }

  /** `getPreferredSerializer`: null when nothing is registered; otherwise the
      first class of the preference order that is registered; otherwise the
      first registered instance. */
  method GetPreferredSerializer(m: Manager) returns (r: Option<Serializer>)
    requires Valid(m)
    ensures r.None? <==> |m.entries| == 0
    ensures Find(m.entries, OpisName).Some? ==> r == Find(m.entries, OpisName)
    ensures Find(m.entries, OpisName).None? && Find(m.entries, SuperName).Some? ==> r == Find(m.entries, SuperName)
    ensures Find(m.entries, OpisName).None? && Find(m.entries, SuperName).None? && |m.entries| > 0 ==> r == Some(m.entries[0].1)
    ensures r == Preferred(m)
  {
    if |m.entries| == 0 {
      return None;
    }
    assert PreferenceOrder[0] == OpisName && PreferenceOrder[1] == SuperName;
    var i := 0;
    while i < |PreferenceOrder|
      invariant 0 <= i <= |PreferenceOrder|
      invariant forall k | 0 <= k < i :: Find(m.entries, PreferenceOrder[k]).None?
    {
      var found := Find(m.entries, PreferenceOrder[i]);
      if found.Some? {
        return found;
      }
      i := i + 1;
    }
    return Some(m.entries[0].1);
  }

  // ---------------------------------------------------------------------
  // Lemmas

  lemma {:induction false} StoreSpec(es: seq<(string, Serializer)>, name: string, s: Serializer)
    ensures Find(Store(es, name, s), name) == Some(s)
    ensures forall other | other != name :: Find(Store(es, name, s), other) == Find(es, other)
    ensures forall i | 0 <= i < |Store(es, name, s)| :: Store(es, name, s)[i] == (name, s) || Store(es, name, s)[i] in es
  {
    var r := Store(es, name, s);
    if |es| > 0 && es[0].0 != name {
      StoreSpec(es[1..], name, s);
      assert r == [es[0]] + Store(es[1..], name, s);
      forall i | 0 <= i < |r| ensures r[i] == (name, s) || r[i] in es {
        if i > 0 {
          assert r[i] == Store(es[1..], name, s)[i - 1];
        }
      }
    } else if |es| > 0 {
      assert r == [(name, s)] + es[1..];
      forall i | 0 <= i < |r| ensures r[i] == (name, s) || r[i] in es {
        if i > 0 {
          assert r[i] == es[i];
        }
      }
      forall other | other != name ensures Find(r, other) == Find(es, other) {
        assert r[1..] == es[1..];
      }
    }
  }

  /** Storing keeps the array valid: names stay distinct, and each instance
      sits under its own class name. */
  lemma StoreValid(m: Manager, s: Serializer)
    requires Valid(m)
    ensures Valid(Manager(Store(m.entries, s.cls, s)))
  {
    StoreKeepsDistinct(Names(m.entries), s.cls);
    StoreKeepsClasses(m.entries, s);
  }

  /** Appending a name that is not there keeps a list of names distinct. */
  lemma StoreKeepsDistinct(ns: seq<string>, name: string)
    requires Distinct(ns)
    ensures Distinct(if name in ns then ns else ns + [name])
  {
    if name !in ns {
      var ns' := ns + [name];
      forall i, j | 0 <= i < j < |ns'| ensures ns'[i] != ns'[j] {
        assert ns'[i] == ns[i];
        if j < |ns| {
          assert ns'[j] == ns[j];
        }
      }
    }
  }

  /** Storing an instance under its own class keeps every instance under its class. */
  lemma {:induction false} StoreKeepsClasses(es: seq<(string, Serializer)>, s: Serializer)
    requires forall i | 0 <= i < |es| :: es[i].1.cls == es[i].0
    ensures var r := Store(es, s.cls, s); forall i | 0 <= i < |r| :: r[i].1.cls == r[i].0
  {
    var r := Store(es, s.cls, s);
    if |es| > 0 && es[0].0 != s.cls {
      StoreKeepsClasses(es[1..], s);
      forall i | 0 <= i < |r| ensures r[i].1.cls == r[i].0 {
        if i > 0 {
          assert r[i] == Store(es[1..], s.cls, s)[i - 1];
        }
      }
    } else if |es| > 0 {
      forall i | 0 <= i < |r| ensures r[i].1.cls == r[i].0 {
        if i > 0 {
          assert r[i] == es[i];
        }
      }
    }
  }

  /** What `Find` returns is an entry of the array under that name. */
  lemma {:induction false} FindSpec(es: seq<(string, Serializer)>, name: string)
    requires forall i | 0 <= i < |es| :: es[i].1.cls == es[i].0
    ensures Find(es, name).Some? <==> exists i | 0 <= i < |es| :: es[i].0 == name
    ensures Find(es, name).Some? ==> Find(es, name).value.cls == name && (exists i | 0 <= i < |es| :: es[i] == (name, Find(es, name).value))
  {
    if |es| > 0 {
      if es[0].0 != name {
        FindSpec(es[1..], name);
        if Find(es, name).Some? {
          var i :| 0 <= i < |es[1..]| && es[1..][i] == (name, Find(es, name).value);
          assert es[i + 1] == es[1..][i];
        }
        if exists i | 0 <= i < |es| :: es[i].0 == name {
          var i :| 0 <= i < |es| && es[i].0 == name;
          assert es[1..][i - 1] == es[i];
        }
      }
    }
  }

  /** When a preferred class is registered, the choice depends only on which
      instance each class name holds, not on the order of registration. */
  lemma PreferredIgnoresOrder(m1: Manager, m2: Manager)
    requires Valid(m1) && Valid(m2)
    requires forall name :: Find(m1.entries, name) == Find(m2.entries, name)
    requires Find(m1.entries, OpisName).Some? || Find(m1.entries, SuperName).Some?
    ensures Preferred(m1) == Preferred(m2)
  {
    assert |m1.entries| > 0 && |m2.entries| > 0;
  }

  /** A single registered serializer is the preferred one, whatever its class. */
  lemma SingleIsPreferred(s: Serializer)
    ensures Preferred(AddSerializer(Empty, s)) == Some(s)
  {
    var m := AddSerializer(Empty, s);
    assert m.entries == [(s.cls, s)];
  }

  /** With no preferred class registered, the fallback is the first registration,
      which later registrations of other classes do not displace. */
  lemma FallbackIsFirstRegistered(s: Serializer, t: Serializer)
    requires s.cls != t.cls
    requires s.cls != OpisName && s.cls != SuperName && t.cls != OpisName && t.cls != SuperName
    ensures Preferred(AddSerializer(AddSerializer(Empty, s), t)) == Some(s)
  {
    var m := AddSerializer(AddSerializer(Empty, s), t);
    assert AddSerializer(Empty, s).entries == [(s.cls, s)];
    assert m.entries == [(s.cls, s)] + Store([], t.cls, t);
  }
}
