/** The parsed bibliographic records the exporter works on.
    A record's `entryTags` is a JavaScript object; its string keys enumerate in
    insertion order, so it is modelled as a sequence of (field, value) pairs. */
module Records {
  import opened JsValues

  /** One field of `entryTags`: its name and its value. */
  type Tag = (string, string)

  /** One record as produced by the BibTeX parser: an entry type, an optional
      citation key, an optional raw body, and optional structured fields. */
  datatype Record = Record(
    entryType: string,
    citationKey: Option<string>,
    entry: Option<string>,
    entryTags: Option<seq<Tag>>)

  /** The field names of `tags`, in enumeration order. */
  function Keys(tags: seq<Tag>): seq<string> {
    seq(|tags|, i requires 0 <= i < |tags| => tags[i].0)
  }

  predicate Distinct(ks: seq<string>) {
    forall i, j :: 0 <= i < j < |ks| ==> ks[i] != ks[j]
  }

  /** A JavaScript object never holds the same key twice. */
  predicate DistinctKeys(tags: seq<Tag>) {
    Distinct(Keys(tags))
  }

  /** Reading property `key` of the object: its value, or `None` (undefined). */
  function Lookup(tags: seq<Tag>, key: string): Option<string> {
    if tags == [] then None
    else if tags[0].0 == key then Some(tags[0].1)
    else Lookup(tags[1..], key)
  }

  /** Assigning `obj[key] = value`. */
  function SetTag(tags: seq<Tag>, key: string, value: string): (r: seq<Tag>)
    ensures |r| == |tags| || |r| == |tags| + 1
  {
    if tags == [] then [(key, value)]
    else if tags[0].0 == key then [(key, value)] + tags[1..]
    else [tags[0]] + SetTag(tags[1..], key, value)
  }

  /** After the assignment the key reads as the new value and every other key
      reads as before. */
  lemma {:induction false} SetTagReads(tags: seq<Tag>, key: string, value: string, k: string)
    ensures Lookup(SetTag(tags, key, value), k) == if k == key then Some(value) else Lookup(tags, k)
  {
    if tags != [] && tags[0].0 != key {
      SetTagReads(tags[1..], key, value, k);
      assert SetTag(tags, key, value)[1..] == SetTag(tags[1..], key, value);
    } else if tags != [] {
      assert SetTag(tags, key, value)[1..] == tags[1..];
    }
  }

  lemma KeysCons(tags: seq<Tag>)
    requires tags != []
    ensures Keys(tags) == [tags[0].0] + Keys(tags[1..])
  {
  }

  /** An existing key keeps its place in the enumeration order; a new key
      goes at the end. */
  lemma {:induction false} SetTagKeys(tags: seq<Tag>, key: string, value: string)
    ensures key in Keys(tags) ==> Keys(SetTag(tags, key, value)) == Keys(tags)
    ensures key !in Keys(tags) ==> Keys(SetTag(tags, key, value)) == Keys(tags) + [key]
  {
    var r := SetTag(tags, key, value);
    if tags == [] {
      assert Keys(r) == [key];
    } else {
      KeysCons(tags);
      KeysCons(r);
      if tags[0].0 == key {
        assert r[1..] == tags[1..];
      } else {
        assert r[1..] == SetTag(tags[1..], key, value);
        SetTagKeys(tags[1..], key, value);
      }
    }
  }

  /** Assignment never creates a second field of the same name. */
  lemma SetTagKeepsDistinct(tags: seq<Tag>, key: string, value: string)
    requires DistinctKeys(tags)
    ensures DistinctKeys(SetTag(tags, key, value))
  {
    SetTagKeys(tags, key, value);
    var ks, ks' := Keys(tags), Keys(SetTag(tags, key, value));
    if key !in ks {
      forall i, j | 0 <= i < j < |ks'| ensures ks'[i] != ks'[j] {
        if j == |ks| {
          assert ks'[i] == ks[i];
        }
      }
    }
  }

  /** Assigning the value a key already holds leaves the object as it was. */
  lemma {:induction false} SetTagExisting(tags: seq<Tag>, key: string, value: string)
    requires Lookup(tags, key) == Some(value)
    ensures SetTag(tags, key, value) == tags
  {
    if tags[0].0 != key {
      SetTagExisting(tags[1..], key, value);
    }
  }

  /** Assigning the same property twice is the same as assigning it once. */
  lemma SetTagIdempotent(tags: seq<Tag>, key: string, value: string)
    ensures SetTag(SetTag(tags, key, value), key, value) == SetTag(tags, key, value)
  {
    SetTagReads(tags, key, value, key);
    SetTagExisting(SetTag(tags, key, value), key, value);
  }
}
