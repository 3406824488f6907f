/** The `services` dictionary of tvault: a Python dict from service name to
    secret. Python dicts remember insertion order and the vault serialiser
    walks them in that order, so the dictionary is an association list. */
module OrderedDict {
  import opened Failures

  datatype Entry = Entry(name: string, secret: string)

  type Entries = seq<Entry>

  function Names(d: Entries): (names: seq<string>)
    ensures |names| == |d|
    ensures forall i :: 0 <= i < |d| ==> names[i] == d[i].name
  {
    if d == [] then [] else [d[0].name] + Names(d[1..])
  }

  /** A dict holds each key once. */
  predicate UniqueNames(d: Entries) {
    Distinct(Names(d))
  }

  predicate Distinct(s: seq<string>) {
    forall i, j :: 0 <= i < j < |s| ==> s[i] != s[j]
  }

  /** `services.get(name)`. */
  function Lookup(d: Entries, name: string): (r: Option)
    ensures r.Some? <==> name in Names(d)
    ensures r.Some? ==> Entry(name, r.value) in d
  {
    if d == [] then None
    else if d[0].name == name then Some(d[0].secret)
    else Lookup(d[1..], name)
  }

  /** `services[name] = secret`. */
  function Set(d: Entries, name: string, secret: string): (r: Entries)
    ensures Lookup(r, name) == Some(secret)
  {
    if d == [] then [Entry(name, secret)]
    else if d[0].name == name then [Entry(name, secret)] + d[1..]
    else [d[0]] + Set(d[1..], name, secret)
  }

  /** Setting a key the dict lacks appends it at the end. */
  lemma {:induction false} SetAbsent(d: Entries, name: string, secret: string)
    requires name !in Names(d)
    ensures Set(d, name, secret) == d + [Entry(name, secret)]
  {
    if d != [] {
      NamesCons(d);
      SetAbsent(d[1..], name, secret);
      AppendUnderHead(d, Entry(name, secret));
    }
  }

  lemma AppendUnderHead(d: Entries, e: Entry)
    requires d != []
    ensures [d[0]] + (d[1..] + [e]) == d + [e]
  {
    assert d == [d[0]] + d[1..];
  }

  /** Setting a key changes no other key. */
  lemma {:induction false} SetKeepsOthers(d: Entries, name: string, secret: string, other: string)
    requires other != name
    ensures Lookup(Set(d, name, secret), other) == Lookup(d, other)
  {
    if d != [] && d[0].name != name {
      var r := Set(d, name, secret);
      assert r[1..] == Set(d[1..], name, secret);
      SetKeepsOthers(d[1..], name, secret, other);
    }
  }

  /** An existing key keeps its position; a new key goes at the end. */
  lemma {:induction false} SetOrder(d: Entries, name: string, secret: string)
    ensures Names(Set(d, name, secret)) == if name in Names(d) then Names(d) else Names(d) + [name]
  {
    if d != [] {
      NamesCons(d);
      if d[0].name == name {
        SetHead(d, name, secret);
        NamesOfCons(Entry(name, secret), d[1..]);
      } else {
        var rest := Set(d[1..], name, secret);
        SetPast(d, name, secret);
        NamesOfCons(d[0], rest);
        SetOrder(d[1..], name, secret);
        NameInTailIff(d, name);
        if name !in Names(d) {
          assert [d[0].name] + (Names(d[1..]) + [name]) == ([d[0].name] + Names(d[1..])) + [name];
        }
      }
    }
  }

  lemma NameInTailIff(d: Entries, name: string)
    requires d != [] && d[0].name != name
    ensures name in Names(d) <==> name in Names(d[1..])
  {
    NamesCons(d);
  }

  lemma SetHead(d: Entries, name: string, secret: string)
    requires d != [] && d[0].name == name
    ensures Set(d, name, secret) == [Entry(name, secret)] + d[1..]
  {
  }

  lemma SetPast(d: Entries, name: string, secret: string)
    requires d != [] && d[0].name != name
    ensures Set(d, name, secret) == [d[0]] + Set(d[1..], name, secret)
  {
  }

  lemma NamesOfCons(e: Entry, rest: Entries)
    ensures Names([e] + rest) == [e.name] + Names(rest)
  {
    assert ([e] + rest)[0] == e && ([e] + rest)[1..] == rest;
  }

  lemma NamesCons(d: Entries)
    requires d != []
    ensures Names(d) == [d[0].name] + Names(d[1..])
  {
  }

  lemma SetKeepsUnique(d: Entries, name: string, secret: string)
    requires UniqueNames(d)
    ensures UniqueNames(Set(d, name, secret))
  {
    SetOrder(d, name, secret);
    var n := Names(d);
    if name !in n {
      var m := n + [name];
      forall i, j | 0 <= i < j < |m| ensures m[i] != m[j] {
        if j == |n| { assert m[i] == n[i]; }
      }
    }
  }

  /** `del services[name]`: the key is gone, every other key keeps its
      secret and the remaining keys keep their order. */
  function Remove(d: Entries, name: string): (r: Entries)
    ensures Lookup(r, name) == None
    ensures forall other :: other != name ==> Lookup(r, other) == Lookup(d, other)
    ensures forall e :: e in r <==> e in d && e.name != name
  {
    if d == [] then []
    else if d[0].name == name then Remove(d[1..], name)
    else [d[0]] + Remove(d[1..], name)
  }

  /** The first key of a dict with unique keys is not repeated after it,
      and the rest of the dict has unique keys too. */
  lemma UniqueTail(d: Entries)
    requires UniqueNames(d) && d != []
    ensures UniqueNames(d[1..]) && d[0].name !in Names(d[1..])
  {
    var n, m := Names(d), Names(d[1..]);
    assert forall k :: 0 <= k < |m| ==> m[k] == n[k + 1];
  }

  /** `del` of an absent key changes nothing. */
  lemma {:induction false} RemoveAbsent(d: Entries, name: string)
    requires name !in Names(d)
    ensures Remove(d, name) == d
  {
    if d != [] {
      assert Names(d) == [d[0].name] + Names(d[1..]);
      RemoveAbsent(d[1..], name);
      assert d == [d[0]] + d[1..];
    }
  }

  /** Where `name` stands in the dict. */
  function IndexOf(d: Entries, name: string): (i: nat)
    requires name in Names(d)
    ensures i < |d| && d[i].name == name
    ensures forall k :: 0 <= k < i ==> d[k].name != name
  {
    assert Names(d) == [d[0].name] + Names(d[1..]);
    if d[0].name == name then 0 else 1 + IndexOf(d[1..], name)
  }

  /** `del` keeps the other entries in their order: the key's one entry is
      cut out where it stands. */
  lemma {:induction false} RemoveKeepsOrder(d: Entries, name: string)
    requires UniqueNames(d) && name in Names(d)
    ensures Remove(d, name) == d[..IndexOf(d, name)] + d[IndexOf(d, name) + 1..]
  {
    UniqueTail(d);
    if d[0].name == name {
      RemoveAbsent(d[1..], name);
      RemoveHead(d, name);
      assert d[..0] + d[1..] == d[1..];
    } else {
      NameInTailIff(d, name);
      var i := IndexOf(d[1..], name);
      assert IndexOf(d, name) == i + 1;
      RemoveKeepsOrder(d[1..], name);
      RemovePast(d, name);
      CutShift(d, i);
    }
  }

  lemma RemoveHead(d: Entries, name: string)
    requires d != [] && d[0].name == name
    ensures Remove(d, name) == Remove(d[1..], name)
  {
  }

  lemma RemovePast(d: Entries, name: string)
    requires d != [] && d[0].name != name
    ensures Remove(d, name) == [d[0]] + Remove(d[1..], name)
  {
  }

  lemma CutShift(d: Entries, i: nat)
    requires i + 1 < |d|
    ensures [d[0]] + (d[1..][..i] + d[1..][i + 1..]) == d[..i + 1] + d[i + 2..]
  {
    assert [d[0]] + d[1..][..i] == d[..i + 1];
    assert d[1..][i + 1..] == d[i + 2..];
  }

  /** `del` keeps the keys unique. */
  lemma {:induction false} RemoveKeepsUnique(d: Entries, name: string)
    requires UniqueNames(d)
    ensures UniqueNames(Remove(d, name))
  {
    if d != [] {
      UniqueTail(d);
      RemoveKeepsUnique(d[1..], name);
      if d[0].name != name {
        var rest := Remove(d[1..], name);
        assert Remove(d, name) == [d[0]] + rest;
        if d[0].name in Names(rest) {
          RemoveNamesWithin(d[1..], name, d[0].name);
        }
        NamesCons([d[0]] + rest);
        assert ([d[0]] + rest)[1..] == rest;
        DistinctCons(d[0].name, Names(rest));
      }
    }
  }

  /** `del` adds no key. */
  lemma {:induction false} RemoveNamesWithin(d: Entries, name: string, n: string)
    requires n in Names(Remove(d, name))
    ensures n in Names(d)
  {
    if d != [] {
      NamesCons(d);
      if d[0].name == name {
        RemoveNamesWithin(d[1..], name, n);
      } else {
        var rest := Remove(d[1..], name);
        NamesCons([d[0]] + rest);
        assert ([d[0]] + rest)[1..] == rest;
        if n != d[0].name {
          RemoveNamesWithin(d[1..], name, n);
        }
      }
    }
  }

  lemma DistinctCons(x: string, s: seq<string>)
    requires x !in s && Distinct(s)
    ensures Distinct([x] + s)
  {
    var c := [x] + s;
    forall a, b | 0 <= a < b < |c| ensures c[a] != c[b] {
      assert c[b] == s[b - 1];
      if a > 0 {
        assert c[a] == s[a - 1];
      }
    }
  }
}
