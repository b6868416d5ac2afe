/** The registry of topics: a vector of entries that stands for a finite map. */
module Registries {

  datatype Address = Address(ip: nat, port: nat) {
    predicate IsSet() { ip != 0 && port != 0 }
  }

  datatype Entry = Entry(topic: string, address: Address)

  predicate HasTopic(entries: seq<Entry>, topic: string) {
    exists i :: 0 <= i < |entries| && entries[i].topic == topic
  }

  predicate UniqueTopics(entries: seq<Entry>) {
    forall i, j :: 0 <= i < j < |entries| ==> entries[i].topic != entries[j].topic
  }

  predicate AllSet(entries: seq<Entry>) {
    forall i :: 0 <= i < |entries| ==> entries[i].address.IsSet()
  }

  /** The finite map that the entries stand for. */
  function Meaning(entries: seq<Entry>): map<string, Address> {
    if entries == [] then map[] else Meaning(entries[1..])[entries[0].topic := entries[0].address]
  }

  lemma {:induction false} MeaningHas(entries: seq<Entry>, topic: string)
    ensures topic in Meaning(entries) <==> HasTopic(entries, topic)
  {
    if entries != [] {
      var rest := entries[1..];
      MeaningHas(rest, topic);
      if HasTopic(rest, topic) {
        var i :| 0 <= i < |rest| && rest[i].topic == topic;
        assert entries[i + 1].topic == topic;
      }
      if HasTopic(entries, topic) && entries[0].topic != topic {
        var i :| 0 <= i < |entries| && entries[i].topic == topic;
        assert rest[i - 1].topic == topic;
      }
    }
  }

  /** Where a topic stands does not matter, as long as it stands nowhere else. */
  lemma {:induction false} MeaningAt(entries: seq<Entry>, i: nat)
    requires i < |entries| && UniqueTopics(entries)
    ensures entries[i].topic in Meaning(entries) && Meaning(entries)[entries[i].topic] == entries[i].address
  {
    if i > 0 {
      MeaningAt(entries[1..], i - 1);
      assert entries[1..][i - 1] == entries[i];
    }
  }

  lemma {:induction false} MeaningErased(entries: seq<Entry>, i: nat)
    requires i < |entries| && UniqueTopics(entries)
    ensures Meaning(entries[..i] + entries[i + 1..]) == Meaning(entries) - {entries[i].topic}
  {
    hide Meaning;
    var rest := entries[1..];
    MeaningFirst(entries);
    if i == 0 {
      assert entries[..i] + entries[i + 1..] == rest;
      MeaningHas(rest, entries[0].topic);
      assert !HasTopic(rest, entries[0].topic);
    } else {
      var left := rest[..i - 1] + rest[i..];
      assert entries[..i] + entries[i + 1..] == [entries[0]] + left;
      MeaningErased(rest, i - 1);
      MeaningFirst([entries[0]] + left);
      assert ([entries[0]] + left)[1..] == left && rest[i - 1] == entries[i];
    }
  }

  lemma MeaningFirst(entries: seq<Entry>)
    requires entries != []
    ensures Meaning(entries) == Meaning(entries[1..])[entries[0].topic := entries[0].address]
  {
  }

  lemma {:induction false} MeaningInserted(entries: seq<Entry>, e: Entry)
    requires !HasTopic(entries, e.topic)
    ensures Meaning(entries + [e]) == Meaning(entries)[e.topic := e.address]
  {
    if entries != [] {
      var more := entries + [e];
      assert more[1..] == entries[1..] + [e];
      assert entries[0].topic != e.topic;
      MeaningInserted(entries[1..], e);
    } else {
      assert ([e])[1..] == [];
    }
  }

  /** Two vectors in good order that stand for the same map hold the same entries. */
  lemma SameEntries(a: seq<Entry>, b: seq<Entry>, e: Entry)
    requires UniqueTopics(a) && UniqueTopics(b) && Meaning(a) == Meaning(b) && e in a
    ensures e in b
  {
    var i :| 0 <= i < |a| && a[i] == e;
    MeaningAt(a, i);
    MeaningHas(b, e.topic);
    var j :| 0 <= j < |b| && b[j].topic == e.topic;
    MeaningAt(b, j);
  }

  class Registry {
    var entries: seq<Entry>

    ghost predicate Valid()
      reads this
    {
      UniqueTopics(entries) && AllSet(entries)
    }

    ghost function Contents(): map<string, Address>
      reads this
    {
      Meaning(entries)
    }

    constructor ()
      ensures Valid() && Contents() == map[]
    {
      entries := [];
    }

    /** The first entry for the topic, or -1. */
    method Find(topic: string) returns (index: int)
      ensures index == -1 <==> !HasTopic(entries, topic)
      ensures index != -1 ==> 0 <= index < |entries| && entries[index].topic == topic
      ensures forall j :: 0 <= j < index ==> entries[j].topic != topic
    {
      index := -1;
      var i := 0;
      while i < |entries|
        invariant 0 <= i <= |entries| && index == -1
        invariant forall j :: 0 <= j < i ==> entries[j].topic != topic
      {
        if entries[i].topic == topic {
          index := i;
          break;
        }
        i := i + 1;
      }
    }

    method EraseAt(index: nat)
      requires Valid() && index < |entries|
      modifies this
      ensures Valid() && Contents() == old(Contents()) - {old(entries)[index].topic}
      ensures |entries| == |old(entries)| - 1
    {
      MeaningErased(entries, index);
      entries := entries[..index] + entries[index + 1..];
    }

    method Erase(topic: string)
      requires Valid()
      modifies this
      ensures Valid() && Contents() == old(Contents()) - {topic}
      ensures !HasTopic(entries, topic)
    {
      var index := Find(topic);
      MeaningHas(entries, topic);
      if index >= 0 {
        EraseAt(index);
      }
      MeaningHas(entries, topic);
    }

    method Insert(topic: string, address: Address)
      requires Valid() && !HasTopic(entries, topic) && address.IsSet()
      modifies this
      ensures Valid() && Contents() == old(Contents())[topic := address]
    {
      MeaningInserted(entries, Entry(topic, address));
      entries := entries + [Entry(topic, address)];
    }

    /** false stands for the exception; nothing has been changed then. */
    method Set(topic: string, address: Address) returns (ok: bool)
      requires Valid()
      modifies this
      ensures Valid() && (ok <==> address.ip != 0 && address.port != 0)
      ensures Contents() == if ok then old(Contents())[topic := address] else old(Contents())
    {
      ok := address.IsSet();
      if ok {
        ghost var was := Contents();
        Erase(topic);
        Insert(topic, address);
        assert (was - {topic})[topic := address] == was[topic := address];
      }
    }

    /** The address is written only when the topic is there. */
    method Get(topic: string, address: Address) returns (found: bool, result: Address)
      requires Valid()
      ensures found <==> topic in Contents()
      ensures result == if found then Contents()[topic] else address
      ensures found ==> result.ip != 0 && result.port != 0
    {
      var index := Find(topic);
      MeaningHas(entries, topic);
      found, result := false, address;
      if index >= 0 {
        MeaningAt(entries, index);
        result := entries[index].address;
        found := true;
      }
    }

    method Remove(topic: string)
      requires Valid()
      modifies this
      ensures Valid() && Contents() == old(Contents()) - {topic}
    {
      var index := Find(topic);
      MeaningHas(entries, topic);
      if index >= 0 {
        EraseAt(index);
      }
    }
  }

  // ----- runs ------------------------------------------------------------------------------------

  datatype Call = SetCall(topic: string, address: Address) | RemoveCall(topic: string)

  predicate About(c: Call, topic: string) { c.topic == topic && (c.SetCall? ==> c.address.IsSet()) }

  function Apply(m: map<string, Address>, c: Call): map<string, Address> {
    match c
    case SetCall(topic, address) => if address.IsSet() then m[topic := address] else m
    case RemoveCall(topic) => m - {topic}
  }

  function ApplyAll(m: map<string, Address>, cs: seq<Call>): map<string, Address> {
    if cs == [] then m else Apply(ApplyAll(m, cs[..|cs| - 1]), cs[|cs| - 1])
  }

  /** After any run, a topic has the address that the last call about it gave it. */
  lemma {:induction false} LastCallDecides(m: map<string, Address>, cs: seq<Call>, i: nat)
    requires i < |cs| && About(cs[i], cs[i].topic)
    requires forall j :: i < j < |cs| ==> !About(cs[j], cs[i].topic)
    ensures match cs[i]
            case SetCall(topic, address) => topic in ApplyAll(m, cs) && ApplyAll(m, cs)[topic] == address
            case RemoveCall(topic) => topic !in ApplyAll(m, cs)
  {
    var n := |cs| - 1;
    if i < n {
      var front := cs[..n];
      assert front[i] == cs[i];
      assert forall j :: i < j < |front| ==> front[j] == cs[j];
      LastCallDecides(m, front, i);
      assert !About(cs[n], cs[i].topic);
    }
  }

  /** A run of calls on one registry. */
  method Execute(registry: Registry, calls: seq<Call>)
    requires registry.Valid()
    modifies registry
    ensures registry.Valid() && registry.Contents() == ApplyAll(old(registry.Contents()), calls)
  {
    var i := 0;
    while i < |calls|
      invariant 0 <= i <= |calls| && registry.Valid()
      invariant registry.Contents() == ApplyAll(old(registry.Contents()), calls[..i])
    {
      assert calls[..i + 1][..i] == calls[..i];
      match calls[i] {
        case SetCall(topic, address) => var _ := registry.Set(topic, address);
        case RemoveCall(topic) => registry.Remove(topic);
      }
      i := i + 1;
    }
    assert calls[..i] == calls;
  }
}
