/**
 * The slice of the JSON object model that the CSV projection reads: entries of
 * a JSON array, object members in insertion order, and member lookup by key.
 */
module JsonValues {
  import opened Wrappers

  /** A member value. The projection only ever reads strings; every other JSON
      value (number, boolean, null, object, array) is one case to it. */
  datatype Value = Str(text: string) | NonStr

  /** One key/value pair of a JSON object. */
  datatype Member = Member(key: string, value: Value)

  /** One entry of the input array: an object, whose members keep their
      insertion order, or any value that is not an object. */
  datatype Entry = Object(members: seq<Member>) | NonObject

  /** A JSON object never holds the same key twice. */
  predicate UniqueKeys(members: seq<Member>) {
    forall i, j :: 0 <= i < j < |members| ==> members[i].key != members[j].key
  }

  /** The object's key set, in insertion order: member i's key at position i,
      so under `UniqueKeys` no key is listed twice, as with `keySet()`. */
  function Keys(members: seq<Member>): seq<string> {
    seq(|members|, i requires 0 <= i < |members| => members[i].key)
  }

  /** The value stored under `key`, if any (the first occurrence, which under
      `UniqueKeys` is the only one). */
  function Find(members: seq<Member>, key: string): (r: Option<Value>)
    ensures r.Some? <==> key in Keys(members)
    ensures r.Some? ==> exists i :: 0 <= i < |members| && members[i] == Member(key, r.value)
    ensures r.None? ==> forall i :: 0 <= i < |members| ==> members[i].key != key
    decreases |members|
  {
    if |members| == 0 then None
    else
      assert Keys(members) == [members[0].key] + Keys(members[1..]);
      if members[0].key == key then Some(members[0].value)
      else
        var r := Find(members[1..], key);
        assert forall i :: 0 <= i < |members[1..]| ==> members[1..][i] == members[i + 1];
        r
  }

  /** In an object with unique keys, looking up a member's key yields that
      member's value. */
  lemma {:induction false} FindUnique(members: seq<Member>, i: nat)
    requires UniqueKeys(members)
    requires i < |members|
    ensures Find(members, members[i].key) == Some(members[i].value)
    decreases |members|
  {
    if i > 0 {
      assert members[0].key != members[i].key;
      assert members[1..][i - 1] == members[i];
      assert UniqueKeys(members[1..]) by {
        forall a, b | 0 <= a < b < |members[1..]|
          ensures members[1..][a].key != members[1..][b].key
        {
          assert members[1..][a] == members[a + 1] && members[1..][b] == members[b + 1];
        }
      }
      FindUnique(members[1..], i - 1);
    }
  }

  /** Appending a member with a fresh key never changes the lookup of any other key. */
  lemma {:induction false} FindAppend(members: seq<Member>, extra: Member, key: string)
    requires key != extra.key
    ensures Find(members + [extra], key) == Find(members, key)
    decreases |members|
  {
    if |members| == 0 {
      assert Find([extra], key) == Find([extra][1..], key);
    } else if members[0].key != key {
      assert (members + [extra])[1..] == members[1..] + [extra];
      FindAppend(members[1..], extra, key);
    }
  }
}
