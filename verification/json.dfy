/** Parsed JSON values as the content store hands them out, and the one
    mutation the store performs on them: setting a property of an object.
    Object members keep insertion order, as JavaScript objects do for
    non-numeric keys; numbers are kept as their literal text. */
module Json {
  import opened Wrappers

  datatype Json =
    | JNull
    | JBool(b: bool)
    | JNumber(literal: string)
    | JString(s: string)
    | JArray(items: seq<Json>)
    | JObject(members: seq<Member>)

  datatype Member = Member(key: string, value: Json)

  /** Setting a property on `undefined`, `null` or a primitive throws a
      TypeError in strict-mode code. */
  datatype PropertyError = NotAnObject

  /** The member keys in order. */
  function Keys(ms: seq<Member>): (ks: seq<string>)
    ensures |ks| == |ms|
    ensures forall i :: 0 <= i < |ms| ==> ks[i] == ms[i].key
  {
    if |ms| == 0 then [] else [ms[0].key] + Keys(ms[1..])
  }

  predicate UniqueKeys(ms: seq<Member>) {
    forall i, j :: 0 <= i < j < |ms| ==> ms[i].key != ms[j].key
  }

  /** The value stored under `k` (the first such member), if any. */
  function Get(ms: seq<Member>, k: string): (r: Option<Json>)
    ensures r.None? <==> forall i :: 0 <= i < |ms| ==> ms[i].key != k
    ensures r.Some? ==> exists i :: 0 <= i < |ms| && ms[i] == Member(k, r.value)
  {
    if |ms| == 0 then None
    else if ms[0].key == k then Some(ms[0].value)
    else
      var r := Get(ms[1..], k);
      assert r.Some? ==> exists i :: 0 <= i < |ms| && ms[i] == Member(k, r.value) by {
        if r.Some? {
          var i :| 0 <= i < |ms[1..]| && ms[1..][i] == Member(k, r.value);
          assert ms[i + 1] == Member(k, r.value);
        }
      }
      r
  }

  /** `obj[k] = v`: an existing member keeps its place and takes the new
      value; a new key is appended. */
  function SetMember(ms: seq<Member>, k: string, v: Json): (r: seq<Member>)
    ensures SetMemberSpec(ms, k, v, r)
    decreases |ms|
  {
    if |ms| == 0 then
      assert Keys([Member(k, v)]) == [k];
      [Member(k, v)]
    else if ms[0].key == k then
      ReplaceHead(ms, k, v);
      [Member(k, v)] + ms[1..]
    else
      var rest := SetMember(ms[1..], k, v);
      KeepHead(ms, k, v, rest);
      [ms[0]] + rest
  }

  /** What `obj[k] = v` does to the member list `ms`, yielding `r`: `k` now
      reads `v`, every other key reads as before, an existing key keeps its
      position, a new key is appended, and unique keys stay unique. */
  ghost predicate SetMemberSpec(ms: seq<Member>, k: string, v: Json, r: seq<Member>) {
    && Get(r, k) == Some(v)
    && (forall k' :: k' != k ==> Get(r, k') == Get(ms, k'))
    && (Get(ms, k).Some? ==> Keys(r) == Keys(ms))
    && (Get(ms, k).None? ==> Keys(r) == Keys(ms) + [k])
    && (UniqueKeys(ms) ==> UniqueKeys(r))
  }

  /** The key sits at the head: its value is replaced in place. */
  lemma ReplaceHead(ms: seq<Member>, k: string, v: Json)
    requires |ms| > 0 && ms[0].key == k
    ensures SetMemberSpec(ms, k, v, [Member(k, v)] + ms[1..])
  {
  }

  /** The head has another key: it stays, and the tail is updated. */
  lemma KeepHead(ms: seq<Member>, k: string, v: Json, rest: seq<Member>)
    requires |ms| > 0 && ms[0].key != k
    requires SetMemberSpec(ms[1..], k, v, rest)
    ensures SetMemberSpec(ms, k, v, [ms[0]] + rest)
  {
    assert ms == [ms[0]] + ms[1..];
    KeepHeadValues(ms[0], ms[1..], k, v, rest);
    KeepHeadKeys(ms[0], ms[1..], k, v, rest);
    if UniqueKeys(ms) {
      ConsUniqueKeys(ms[0], ms[1..]);
      ConsUniqueKeys(ms[0], rest);
    }
  }

  lemma KeepHeadValues(h: Member, tail: seq<Member>, k: string, v: Json, rest: seq<Member>)
    requires h.key != k
    requires Get(rest, k) == Some(v)
    requires forall k' :: k' != k ==> Get(rest, k') == Get(tail, k')
    ensures Get([h] + rest, k) == Some(v)
    ensures forall k' :: k' != k ==> Get([h] + rest, k') == Get([h] + tail, k')
  {
  }

  lemma KeepHeadKeys(h: Member, tail: seq<Member>, k: string, v: Json, rest: seq<Member>)
    requires h.key != k
    requires Get(tail, k).Some? ==> Keys(rest) == Keys(tail)
    requires Get(tail, k).None? ==> Keys(rest) == Keys(tail) + [k]
    ensures Get([h] + tail, k).Some? ==> Keys([h] + rest) == Keys([h] + tail)
    ensures Get([h] + tail, k).None? ==> Keys([h] + rest) == Keys([h] + tail) + [k]
  {
  }

  lemma KeysCons(h: Member, rest: seq<Member>)
    ensures Keys([h] + rest) == [h.key] + Keys(rest)
  {
  }

  lemma GetCons(m: Member, rest: seq<Member>)
    ensures forall k :: Get([m] + rest, k) == if m.key == k then Some(m.value) else Get(rest, k)
  {
  }

  /** A member list headed by `m` has unique keys iff its tail does and `m`'s
      key does not occur there. */
  lemma ConsUniqueKeys(m: Member, rest: seq<Member>)
    ensures UniqueKeys([m] + rest) <==> UniqueKeys(rest) && Get(rest, m.key).None?
  {
    var ms := [m] + rest;
    if UniqueKeys(rest) && Get(rest, m.key).None? {
      forall i, j | 0 <= i < j < |ms|
        ensures ms[i].key != ms[j].key
      {
        if i > 0 {
          assert ms[i] == rest[i - 1] && ms[j] == rest[j - 1];
        }
      }
    }
    if UniqueKeys(ms) {
      forall i, j | 0 <= i < j < |rest|
        ensures rest[i].key != rest[j].key
      {
        assert ms[i + 1] == rest[i] && ms[j + 1] == rest[j];
      }
      forall i | 0 <= i < |rest|
        ensures rest[i].key != m.key
      {
        assert ms[0] == m && ms[i + 1] == rest[i];
        assert ms[0].key != ms[i + 1].key;
      }
    }
  }

  /** `value[k] = v` on an arbitrary parsed value. An array accepts the
      property as a non-index one that its JSON form does not show, so its JSON
      image is unchanged; every non-object, non-array value refuses it. */
  function SetProperty(value: Option<Json>, k: string, v: Json): (r: Result<Json, PropertyError>)
    ensures r.Success? <==> value.Some? && (value.value.JObject? || value.value.JArray?)
    ensures r.Success? && value.value.JArray? ==> r.value == value.value
    ensures r.Success? && value.value.JObject? ==>
      && r.value.JObject?
      && Get(r.value.members, k) == Some(v)
      && (forall k' :: k' != k ==> Get(r.value.members, k') == Get(value.value.members, k'))
  {
    match value
    case Some(JObject(ms)) => Success(JObject(SetMember(ms, k, v)))
    case Some(JArray(items)) => Success(JArray(items))
    case _ => Failure(NotAnObject)
  }
}
