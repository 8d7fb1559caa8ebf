/** Folder tags (internal/store/tag_store.go): tag names are normalised, a
    tag is found or created by name, and folder-tag links form a set, so
    linking twice changes nothing. */
module TagStore {
  import opened Results
  import opened Strings

  datatype Tag = Tag(id: int, name: string)

  /** The `tags` rows by name, the id the next insert receives, and the
      `folder_tags` pairs (folder id, tag id). */
  datatype Tags = Tags(byName: map<string, int>, nextId: int, links: set<(int, int)>)

  const EmptyNameError: string := "tag name cannot be empty"

  /** Every tag id is below `nextId` and no two names share an id. */
  predicate Valid(s: Tags) {
    (forall n :: n in s.byName ==> s.byName[n] < s.nextId)
    && (forall a, b :: a in s.byName && b in s.byName && s.byName[a] == s.byName[b] ==> a == b)
  }

  /** `strings.TrimSpace(strings.ToLower(name))` */
  function Normalize(name: string): (n: string)
    ensures |n| > 0 ==> !IsSpace(n[0]) && !IsSpace(n[|n| - 1])
    ensures forall i :: 0 <= i < |n| ==> !IsUpperAscii(n[i])
  {
    var lower := ToLower(name);
    TrimmedLowerFacts(lower);
    TrimSpace(lower)
  }

  /** Trimming a string without upper-case letters leaves one without them
      and without white space at either end. */
  lemma TrimmedLowerFacts(lower: string)
    requires forall i :: 0 <= i < |lower| ==> !IsUpperAscii(lower[i])
    ensures var n := TrimSpace(lower);
      (|n| > 0 ==> !IsSpace(n[0]) && !IsSpace(n[|n| - 1]))
      && forall i :: 0 <= i < |n| ==> !IsUpperAscii(n[i])
  {
    var left := TrimLeftWhile(lower, IsSpace);
    var n := TrimRightWhile(left, IsSpace);
    assert left == lower[|lower| - |left|..];
    assert n == left[..|n|];
    forall i | 0 <= i < |n| ensures !IsUpperAscii(n[i]) {
      assert n[i] == left[i] == lower[|lower| - |left| + i];
    }
  }

  /** `AddTagToFolder`: the tag named by the normalised name, created if no
      tag has that name, and linked to the folder (`INSERT OR IGNORE`). */
  function AddTagToFolder(s: Tags, folderId: int, name: string): (r: Result<(Tag, Tags)>)
    ensures r.Err? <==> Normalize(name) == ""
    ensures r.Err? ==> r.error == EmptyNameError
    ensures r.Ok? ==> var (tag, s') := r.value;
      tag.name == Normalize(name)
      && (Normalize(name) in s.byName ==> tag.id == s.byName[Normalize(name)] && s'.byName == s.byName)
      && (Normalize(name) !in s.byName ==> tag.id == s.nextId && s'.byName == s.byName[Normalize(name) := s.nextId])
      && s'.links == s.links + {(folderId, tag.id)}
      && s'.byName[tag.name] == tag.id
      && (Valid(s) ==> Valid(s'))
  {
    var n := Normalize(name);
    if n == "" then Err(EmptyNameError)
    else if n in s.byName then
      var tag := Tag(s.byName[n], n);
      Ok((tag, s.(links := s.links + {(folderId, tag.id)})))
    else
      var tag := Tag(s.nextId, n);
      Ok((tag, Tags(s.byName[n := s.nextId], s.nextId + 1, s.links + {(folderId, tag.id)})))
  }

  /** `RemoveTagFromFolder`: drops that one pair; no error when it is absent. */
  function RemoveTagFromFolder(s: Tags, folderId: int, tagId: int): (r: Tags)
    ensures r.links == s.links - {(folderId, tagId)}
    ensures r.byName == s.byName && r.nextId == s.nextId
  {
    s.(links := s.links - {(folderId, tagId)})
  }

  /** Adding a tag a second time, under any spelling with the same normal
      form, returns the same tag and changes nothing. */
  lemma AddTwiceIsIdempotent(s: Tags, folderId: int, name1: string, name2: string)
    requires Normalize(name1) == Normalize(name2) && Normalize(name1) != ""
    ensures var (tag1, s1) := AddTagToFolder(s, folderId, name1).value;
      var r2 := AddTagToFolder(s1, folderId, name2);
      r2.Ok? && r2.value == (tag1, s1)
  {
  }

  /** Removing twice is the same as removing once, and other links stay. */
  lemma RemoveIdempotent(s: Tags, folderId: int, tagId: int)
    ensures RemoveTagFromFolder(RemoveTagFromFolder(s, folderId, tagId), folderId, tagId)
      == RemoveTagFromFolder(s, folderId, tagId)
    ensures forall p :: p in s.links && p != (folderId, tagId) ==> p in RemoveTagFromFolder(s, folderId, tagId).links
  {
  }

  /** Removing a link that adding created restores the links as they were. */
  lemma RemoveUndoesAdd(s: Tags, folderId: int, name: string)
    requires Normalize(name) != ""
    ensures var (tag, s1) := AddTagToFolder(s, folderId, name).value;
      (folderId, tag.id) !in s.links ==> RemoveTagFromFolder(s1, folderId, tag.id).links == s.links
  {
  }

  // ---------------------------------------------------------------------------
  // Normal form
  // ---------------------------------------------------------------------------

  lemma LowerUpper(name: string)
    ensures ToLower(ToUpper(name)) == ToLower(name)
  {
  }

  /** Upper-casing the name does not change its normal form. */
  lemma NormalizeIgnoresCase(name: string)
    ensures Normalize(ToUpper(name)) == Normalize(name)
  {
    LowerUpper(name);
  }

  predicate AllSpaces(pad: string) {
    forall i :: 0 <= i < |pad| ==> IsSpace(pad[i])
  }

  lemma {:induction false} TrimLeftPadding(pad: string, x: string)
    requires AllSpaces(pad)
    ensures TrimLeftWhile(pad + x, IsSpace) == TrimLeftWhile(x, IsSpace)
    decreases |pad|
  {
    if |pad| > 0 {
      assert (pad + x)[1..] == pad[1..] + x;
      TrimLeftPadding(pad[1..], x);
    } else {
      assert pad + x == x;
    }
  }

  lemma {:induction false} TrimRightPadding(x: string, pad: string)
    requires AllSpaces(pad)
    ensures TrimRightWhile(x + pad, IsSpace) == TrimRightWhile(x, IsSpace)
    decreases |pad|
  {
    if |pad| > 0 {
      assert (x + pad)[..|x + pad| - 1] == x + pad[..|pad| - 1];
      TrimRightPadding(x, pad[..|pad| - 1]);
    } else {
      assert x + pad == x;
    }
  }

  /** Trimming the left of `x + pad` either empties it or leaves the trimmed
      `x` followed by `pad`. */
  lemma {:induction false} TrimLeftThenPad(x: string, pad: string)
    requires AllSpaces(pad)
    ensures TrimLeftWhile(x, IsSpace) == "" ==> TrimLeftWhile(x + pad, IsSpace) == ""
    ensures TrimLeftWhile(x, IsSpace) != "" ==>
      TrimLeftWhile(x + pad, IsSpace) == TrimLeftWhile(x, IsSpace) + pad
    decreases |x|
  {
    if |x| > 0 {
      assert (x + pad)[0] == x[0];
      if IsSpace(x[0]) {
        assert (x + pad)[1..] == x[1..] + pad;
        TrimLeftThenPad(x[1..], pad);
      }
    } else {
      assert x + pad == pad;
      assert TrimLeftWhile(pad, IsSpace) == TrimLeftWhile(pad + "", IsSpace) by {
        assert pad + "" == pad;
      }
      TrimLeftPadding(pad, "");
    }
  }

  /** Surrounding white space does not change the normal form. */
  lemma NormalizeIgnoresPadding(pad1: string, name: string, pad2: string)
    requires AllSpaces(pad1) && AllSpaces(pad2)
    ensures Normalize(pad1 + name + pad2) == Normalize(name)
  {
    var m := ToLower(name);
    ToLowerConcat(pad1, name);
    ToLowerConcat(pad1 + name, pad2);
    assert ToLower(pad1) == pad1 && ToLower(pad2) == pad2;
    assert ToLower(pad1 + name + pad2) == pad1 + (m + pad2);
    TrimLeftPadding(pad1, m + pad2);
    TrimLeftThenPad(m, pad2);
    var left := TrimLeftWhile(m, IsSpace);
    if left != "" {
      TrimRightPadding(left, pad2);
    }
  }
}
