/** `toBibtex`: the serialiser that turns the records back into BibTeX text.
    `Serialize`, `Chunk` and `JoinTags` state what the output is; `ToBibtex`
    builds it the way the script does, string by string, and is proved to
    produce exactly `Serialize`. */
module Bibtex {
  import opened JsValues
  import opened Records

  /** One field as written out: `name = {value}`. Values are not escaped. */
  function RenderTag(t: Tag): string {
    t.0 + " = {" + t.1 + "}"
  }

  /** The fields of one record, each rendered, separated by `",\n"`. */
  function JoinTags(tags: seq<Tag>): (s: string)
    ensures s == "" <==> tags == []
  {
    if tags == [] then ""
    else if |tags| == 1 then RenderTag(tags[0])
    else RenderTag(tags[0]) + ",\n" + JoinTags(tags[1..])
  }

  /** The text written for one record. */
  function Chunk(r: Record): string {
    "@" + r.entryType + "{" + KeyText(r) + EntryText(r) + TagsText(r) + "}\n"
  }

  /** The citation key line, present only for a non-empty key. */
  function KeyText(r: Record): string {
    if Truthy(r.citationKey) then r.citationKey.value + ",\n" else ""
  }

  /** The raw body, verbatim, present only when non-empty. */
  function EntryText(r: Record): string {
    if Truthy(r.entry) then r.entry.value else ""
  }

  /** The field block and its newline, present whenever there is a fields
      object, even an empty one. */
  function TagsText(r: Record): string {
    match r.entryTags
    case None => ""
    case Some(tags) => JoinTags(tags) + "\n"
  }

  /** The whole output: one chunk per record, in input order. */
  function Serialize(rs: seq<Record>): (s: string)
    ensures s == "" <==> rs == []
  {
    if rs == [] then "" else Chunk(rs[0]) + Serialize(rs[1..])
  }

  lemma {:induction false} SerializeAppend(a: seq<Record>, b: seq<Record>)
    ensures Serialize(a + b) == Serialize(a) + Serialize(b)
  {
    if a == [] {
      assert a + b == b;
    } else {
      assert (a + b)[1..] == a[1..] + b;
      SerializeAppend(a[1..], b);
    }
  }

  /** Appending a field: a separator only when some field came before. */
  lemma {:induction false} JoinTagsSnoc(tags: seq<Tag>, t: Tag)
    ensures JoinTags(tags + [t]) ==
      if tags == [] then RenderTag(t) else JoinTags(tags) + ",\n" + RenderTag(t)
  {
    if tags == [] {
      assert tags + [t] == [t];
    } else if |tags| == 1 {
      assert (tags + [t])[1..] == [t];
    } else {
      assert (tags + [t])[1..] == tags[1..] + [t];
      JoinTagsSnoc(tags[1..], t);
    }
  }

  /** Every chunk opens with `@type{` and closes with `}\n`. */
  lemma ChunkFrame(r: Record)
    ensures "@" + r.entryType + "{" <= Chunk(r)
    ensures |Chunk(r)| >= |r.entryType| + 4
    ensures Chunk(r)[|Chunk(r)| - 2..] == "}\n"
  {
  }

  /** The four combinations of citation key and raw body, written out in
      full: the key line appears exactly when the key is non-empty, the raw
      body exactly when it is non-empty, and the field block always follows
      directly. A record with no fields object gets no field block at all,
      while an empty fields object still contributes its newline. */
  lemma ChunkOptionalParts(r: Record)
    ensures !Truthy(r.citationKey) && !Truthy(r.entry) ==>
      Chunk(r) == "@" + r.entryType + "{" + TagsText(r) + "}\n"
    ensures Truthy(r.citationKey) && !Truthy(r.entry) ==>
      Chunk(r) == "@" + r.entryType + "{" + r.citationKey.value + ",\n" + TagsText(r) + "}\n"
    ensures !Truthy(r.citationKey) && Truthy(r.entry) ==>
      Chunk(r) == "@" + r.entryType + "{" + r.entry.value + TagsText(r) + "}\n"
    ensures Truthy(r.citationKey) && Truthy(r.entry) ==>
      Chunk(r) == "@" + r.entryType + "{" + r.citationKey.value + ",\n" + r.entry.value
        + TagsText(r) + "}\n"
    ensures r.entryTags.None? ==> TagsText(r) == ""
    ensures r.entryTags == Some([]) ==> TagsText(r) == "\n"
    ensures r.entryTags.Some? && r.entryTags.value != [] ==>
      TagsText(r) == JoinTags(r.entryTags.value) + "\n" && |TagsText(r)| > 1
  {
  }

  /** The field block of the first `j + 1` fields, built from that of the
      first `j`. */
  lemma JoinTagsPrefix(tags: seq<Tag>, j: nat)
    requires j < |tags|
    ensures (|JoinTags(tags[..j])| != 0) == (j != 0)
    ensures JoinTags(tags[..j + 1]) ==
      (if j == 0 then JoinTags(tags[..j]) else JoinTags(tags[..j]) + ",\n") + RenderTag(tags[j])
  {
    JoinTagsSnoc(tags[..j], tags[j]);
    assert tags[..j + 1] == tags[..j] + [tags[j]];
    if j == 0 {
      assert JoinTags(tags[..j]) + RenderTag(tags[j]) == RenderTag(tags[j]);
    }
  }

  /** The inner loop of the serialiser: fields are appended to `tags`, with a
      separator whenever `tags` is not empty yet. */
  method RenderTags(entryTags: seq<Tag>) returns (tags: string)
    ensures tags == JoinTags(entryTags)
  {
    tags := "";
    for jdx := 0 to |entryTags|
      invariant tags == JoinTags(entryTags[..jdx])
    {
      JoinTagsPrefix(entryTags, jdx);
      if |tags| != 0 {
        tags := tags + ",\n";
      }
      tags := tags + (entryTags[jdx].0 + " = {" + entryTags[jdx].1 + "}");
    }
    assert entryTags[..|entryTags|] == entryTags;
  }

  lemma SerializeSnoc(rs: seq<Record>, i: nat)
    requires i < |rs|
    ensures Serialize(rs[..i + 1]) == Serialize(rs[..i]) + Chunk(rs[i])
  {
    SerializeAppend(rs[..i], [rs[i]]);
    assert rs[..i + 1] == rs[..i] + [rs[i]];
  }

  /** `Chunk` regrouped the way the serialiser appends its pieces to `out`;
      stated once here so that the loop does not redo the regrouping. */
  lemma ChunkAppended(before: string, r: Record)
    ensures before + Chunk(r) ==
      before + ("@" + r.entryType) + "{" + KeyText(r) + EntryText(r) + TagsText(r) + "}\n"
  {
  }

  /** The serialiser, as the script writes it: a loop appending each record's
      text to `out`. */
  method ToBibtex(json: seq<Record>) returns (out: string)
    ensures out == Serialize(json)
  {
    out := "";
    for i := 0 to |json|
      invariant out == Serialize(json[..i])
    {
      ghost var before := out;
      out := out + ("@" + json[i].entryType);
      out := out + "{";
      if Truthy(json[i].citationKey) {
        out := out + (json[i].citationKey.value + ",\n");
      }
      assert out == before + ("@" + json[i].entryType) + "{" + KeyText(json[i]);
      if Truthy(json[i].entry) {
        out := out + json[i].entry.value;
      }
      assert out == before + ("@" + json[i].entryType) + "{" + KeyText(json[i]) + EntryText(json[i]);
      if json[i].entryTags.Some? {
        var tags := RenderTags(json[i].entryTags.value);
        out := out + (tags + "\n");
      }
      assert out == before + ("@" + json[i].entryType) + "{" + KeyText(json[i]) + EntryText(json[i])
        + TagsText(json[i]);
      out := out + "}\n";
      ChunkAppended(before, json[i]);
      SerializeSnoc(json, i);
    }
    assert json[..|json|] == json;
  }

  // Reading the field block back.

  /** Index of the first `c` in `s`, or `|s|` when there is none. */
  function IndexOf(s: string, c: char): (i: nat)
    ensures i <= |s|
    ensures i < |s| ==> s[i] == c
    ensures forall j :: 0 <= j < i ==> s[j] != c
  {
    if s == [] then 0 else if s[0] == c then 0 else 1 + IndexOf(s[1..], c)
  }

  lemma IndexOfAfter(a: string, b: string, c: char)
    requires c !in a && b != [] && b[0] == c
    ensures IndexOf(a + b, c) == |a|
  {
    assert (a + b)[|a|] == c;
  }

  /** Reads a non-empty field block: `name = {value}` items separated by
      `",\n"`, where the name runs up to the first space and the value up to
      the first closing brace. */
  function ReadTagList(s: string): Option<seq<Tag>>
    decreases |s|, 3
  {
    var i := IndexOf(s, ' ');
    ReadEquals(s[..i], s[i..])
  }

  function ReadEquals(name: string, rest: string): Option<seq<Tag>>
    decreases |rest|, 2
  {
    if |rest| < 4 || rest[..4] != " = {" then None else ReadValue(name, rest[4..])
  }

  function ReadValue(name: string, body: string): Option<seq<Tag>>
    decreases |body|, 1
  {
    var j := IndexOf(body, '}');
    if j == |body| then None else ReadSeparator((name, body[..j]), body[j + 1..])
  }

  function ReadSeparator(t: Tag, after: string): Option<seq<Tag>>
    decreases |after|, 0
  {
    if after == "" then Some([t])
    else if |after| >= 2 && after[..2] == ",\n" then
      match ReadTagList(after[2..])
      case None => None
      case Some(more) => Some([t] + more)
    else None
  }

  function ReadTags(s: string): Option<seq<Tag>> {
    if s == "" then Some([]) else ReadTagList(s)
  }

  /** Fields whose names hold no space and whose values hold no closing brace. */
  predicate Readable(tags: seq<Tag>) {
    forall i :: 0 <= i < |tags| ==> ' ' !in tags[i].0 && '}' !in tags[i].1
  }

  lemma ReadName(k: string, rest: string)
    requires ' ' !in k && rest != [] && rest[0] == ' '
    ensures ReadTagList(k + rest) == ReadEquals(k, rest)
  {
    IndexOfAfter(k, rest, ' ');
    assert (k + rest)[..|k|] == k;
    assert (k + rest)[|k|..] == rest;
  }

  lemma ReadOpening(k: string, body: string)
    ensures ReadEquals(k, " = {" + body) == ReadValue(k, body)
  {
    assert (" = {" + body)[..4] == " = {";
    assert (" = {" + body)[4..] == body;
  }

  lemma ReadClosing(k: string, v: string, after: string)
    requires '}' !in v
    ensures ReadValue(k, v + ("}" + after)) == ReadSeparator((k, v), after)
  {
    IndexOfAfter(v, "}" + after, '}');
    assert (v + ("}" + after))[..|v|] == v;
    assert (v + ("}" + after))[|v| + 1..] == after;
  }

  /** The reader takes one rendered field off the front of a block and goes on
      with what follows it. */
  lemma ReadFirstTag(k: string, v: string, after: string)
    requires ' ' !in k && '}' !in v
    ensures ReadTagList(RenderTag((k, v)) + after) == ReadSeparator((k, v), after)
  {
    assert RenderTag((k, v)) + after == k + (" = {" + (v + ("}" + after)));
    ReadName(k, " = {" + (v + ("}" + after)));
    ReadOpening(k, v + ("}" + after));
    ReadClosing(k, v, after);
  }

  lemma ReadSeparatorMore(t: Tag, more: string)
    ensures ReadSeparator(t, ",\n" + more) ==
      match ReadTagList(more)
      case None => None
      case Some(ts) => Some([t] + ts)
  {
    assert (",\n" + more)[..2] == ",\n";
    assert (",\n" + more)[2..] == more;
  }

  lemma {:induction false} ReadTagListJoin(tags: seq<Tag>)
    requires tags != [] && Readable(tags)
    ensures ReadTagList(JoinTags(tags)) == Some(tags)
  {
    var k, v := tags[0].0, tags[0].1;
    if |tags| == 1 {
      assert JoinTags(tags) == RenderTag((k, v)) + "";
      ReadFirstTag(k, v, "");
      assert [(k, v)] == tags;
    } else {
      var more := JoinTags(tags[1..]);
      assert JoinTags(tags) == RenderTag((k, v)) + (",\n" + more);
      ReadFirstTag(k, v, ",\n" + more);
      ReadSeparatorMore((k, v), more);
      ReadTagListJoin(tags[1..]);
      assert [(k, v)] + tags[1..] == tags;
    }
  }

  /** The field block is unambiguous when no name holds a space and no value
      holds a closing brace: the fields can be read back exactly. */
  lemma TagsRoundTrip(tags: seq<Tag>)
    requires Readable(tags)
    ensures ReadTags(JoinTags(tags)) == Some(tags)
  {
    if tags != [] {
      ReadTagListJoin(tags);
    }
  }

  /** Values are written without escaping, so a value holding `},\n` can
      forge a second field: two different field lists give the same text. */
  lemma UnescapedValueForgesField()
    ensures JoinTags([("title", "A},\nnote = {B")]) == JoinTags([("title", "A"), ("note", "B")])
  {
    assert JoinTags([("note", "B")]) == "note = {B}";
  }
}
