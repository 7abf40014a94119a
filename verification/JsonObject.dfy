// Value::find and Value::set of src/json.cpp.

module JsonObject {
  import opened Wrappers
  import opened JsonSyntax

  function Members(v: Value): seq<Member> {
    if v.Object? then v.entries else []
  }

  // The first member of that name.
  function IndexOf(ms: seq<Member>, name: string): (i: nat)
    ensures i <= |ms| && (forall j :: 0 <= j < i ==> ms[j].name != name) && (i < |ms| ==> ms[i].name == name)
  {
    if ms == [] || ms[0].name == name then 0 else IndexOf(ms[1..], name) + 1
  }

  function Lookup(v: Value, name: string): Option<Value> {
    var i := IndexOf(Members(v), name);
    if i < |Members(v)| then Some(Members(v)[i].value) else None
  }

  function Names(ms: seq<Member>): (names: seq<string>)
    ensures |names| == |ms| && forall i :: 0 <= i < |ms| ==> names[i] == ms[i].name
  {
    if ms == [] then [] else [ms[0].name] + Names(ms[1..])
  }

  predicate SameBut(was: seq<Member>, now: seq<Member>, at: nat) {
    forall i :: 0 <= i < |was| && i < |now| && i != at ==> now[i] == was[i]
  }

  // The value with the member put in: in place of the first of that name, or at the end.
  ghost predicate PutIn(was: Value, name: string, value: Value, now: Value) {
    && now.Object?
    && Lookup(now, name) == Some(value)
    && (forall other :: other != name ==> Lookup(now, other) == Lookup(was, other))
    && Names(now.entries) == Names(Members(was)) + (if Lookup(was, name).Some? then [] else [name])
    && SameBut(Members(was), now.entries, IndexOf(Members(was), name))
  }

  lemma IndexIs(ms: seq<Member>, name: string, i: nat)
    requires i <= |ms| && (forall j :: 0 <= j < i ==> ms[j].name != name) && (i < |ms| ==> ms[i].name == name)
    ensures IndexOf(ms, name) == i
  {
  }

  lemma ReplacedIsPutIn(was: Value, name: string, value: Value, i: nat)
    requires i < |Members(was)| && Members(was)[i].name == name && forall j :: 0 <= j < i ==> Members(was)[j].name != name
    ensures PutIn(was, name, value, Object(Members(was)[i := Member(name, value)]))
  {
    hide IndexOf, Names;
    var ms := Members(was);
    var now := ms[i := Member(name, value)];
    IndexIs(now, name, i);
    IndexIs(ms, name, i);
    forall other | other != name
      ensures Lookup(Object(now), other) == Lookup(was, other)
    {
      IndexIs(now, other, IndexOf(ms, other));
    }
    assert Names(now) == Names(ms);
    assert Names(ms) + [] == Names(ms);
  }

  lemma AppendedIsPutIn(was: Value, name: string, value: Value)
    requires forall j :: 0 <= j < |Members(was)| ==> Members(was)[j].name != name
    ensures PutIn(was, name, value, Object(Members(was) + [Member(name, value)]))
  {
    hide IndexOf, Names;
    var ms := Members(was);
    var now := ms + [Member(name, value)];
    IndexIs(now, name, |ms|);
    IndexIs(ms, name, |ms|);
    forall other | other != name
      ensures Lookup(Object(now), other) == Lookup(was, other)
    {
      var i := IndexOf(ms, other);
      if i < |ms| {
        IndexIs(now, other, i);
      } else {
        IndexIs(now, other, |now|);
      }
    }
    assert Names(now) == Names(ms) + [name];
  }

  class Holder {
    var value: Value

    constructor (value: Value)
      ensures this.value == value
    {
      this.value := value;
    }

    method Find(key: string) returns (found: Option<Value>)
      ensures found == Lookup(value, key)
    {
      if !value.Object? {
        return None;
      }
      for i := 0 to |value.entries|
        invariant forall j :: 0 <= j < i ==> value.entries[j].name != key
      {
        if value.entries[i].name == key {
          IndexIs(value.entries, key, i);
          return Some(value.entries[i].value);
        }
      }
      IndexIs(value.entries, key, |value.entries|);
      return None;
    }

    method Set(key: string, x: Value)
      modifies this
      ensures PutIn(old(value), key, x, value)
    {
      hide PutIn;
      ghost var was := value;
      if !value.Object? {
        value := Object([]);
      }
      for i := 0 to |value.entries|
        invariant value == Object(Members(was)) && forall j :: 0 <= j < i ==> value.entries[j].name != key
      {
        if value.entries[i].name == key {
          ReplacedIsPutIn(was, key, x, i);
          value := Object(value.entries[i := Member(key, x)]);
          return;
        }
      }
      AppendedIsPutIn(was, key, x);
      value := Object(value.entries + [Member(key, x)]);
    }
  }
}
