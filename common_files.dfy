/** `get_common_filenames` of app.py: the display names of the files in the
    shared (common) vector store. The HTTP listing is an input that is
    either the list of items or a failure; the per-file metadata request is
    a function from a file id to the filename it reports, with failures
    (and answers without a filename) as `None`. */
module CommonFiles {
  import opened Wrappers
  import opened StringOrder

  /** One entry of the store listing; every key may be missing. */
  datatype StoreItem = StoreItem(id: Option<string>, fileId: Option<string>, filename: Option<string>)

  /** Python truthiness of an optional string: present and non-empty. */
  predicate Truthy(s: Option<string>)
  {
    s.Some? && s.value != ""
  }

  /** The common store is configured when its id is set and non-empty. */
  predicate Configured(commonStore: Option<string>)
  {
    Truthy(commonStore)
  }

  /** `it.get("id") or it.get("file_id")`, with every falsy value as `""`. */
  function FileIdOf(it: StoreItem): (r: string)
    ensures r != "" <==> Truthy(it.id) || Truthy(it.fileId)
    ensures Truthy(it.id) ==> r == it.id.value
  {
    if Truthy(it.id) then it.id.value
    else if Truthy(it.fileId) then it.fileId.value
    else ""
  }

  /** The name one listing item contributes, if any: its own non-empty
      `filename`, or else, when it has a file id, the non-empty filename a
      successful metadata lookup reports. */
  function ItemName(it: StoreItem, lookup: string -> Option<string>): (r: Option<string>)
    ensures r.Some? ==> r.value != ""
    ensures Truthy(it.filename) ==> r == it.filename
    ensures !Truthy(it.filename) ==>
      (r.Some? <==> FileIdOf(it) != "" && Truthy(lookup(FileIdOf(it))))
    ensures !Truthy(it.filename) && r.Some? ==> r == lookup(FileIdOf(it))
  {
    var fid := FileIdOf(it);
    if Truthy(it.filename) then it.filename
    else if fid != "" && Truthy(lookup(fid)) then lookup(fid)
    else None
  }

  /** The names collected from `items`, in listing order, duplicates kept. */
  function Collected(items: seq<StoreItem>, lookup: string -> Option<string>): (r: seq<string>)
    ensures |r| <= |items|
    ensures forall k :: 0 <= k < |r| ==> r[k] != ""
  {
    if items == [] then []
    else
      var last := items[|items| - 1];
      Collected(items[..|items| - 1], lookup) + (match ItemName(last, lookup) case Some(n) => [n] case None => [])
  }

  /** A name is collected exactly when some item contributes it. */
  lemma {:induction false} CollectedMembers(items: seq<StoreItem>, lookup: string -> Option<string>, n: string)
    ensures n in Collected(items, lookup) <==>
      exists i :: 0 <= i < |items| && ItemName(items[i], lookup) == Some(n)
    decreases |items|
  {
    if items != [] {
      var init := items[..|items| - 1];
      var last := items[|items| - 1];
      CollectedMembers(init, lookup, n);
      assert forall i :: 0 <= i < |init| ==> init[i] == items[i];
      if ItemName(last, lookup) == Some(n) {
        assert ItemName(items[|items| - 1], lookup) == Some(n);
      }
    }
  }

  lemma {:induction false} CollectedAppend(a: seq<StoreItem>, b: seq<StoreItem>, lookup: string -> Option<string>)
    ensures Collected(a + b, lookup) == Collected(a, lookup) + Collected(b, lookup)
    decreases |b|
  {
    if b == [] {
      assert a + b == a;
    } else {
      var init := b[..|b| - 1];
      assert (a + b)[..|a + b| - 1] == a + init;
      assert (a + b)[|a + b| - 1] == b[|b| - 1];
      CollectedAppend(a, init, lookup);
    }
  }

  lemma CollectedSkipsSilentItem(x: StoreItem, lookup: string -> Option<string>)
    requires ItemName(x, lookup) == None
    ensures Collected([x], lookup) == []
  {
    assert [x][..0] == [];
  }

  lemma CollectedDropsSilentItem(front: seq<StoreItem>, x: StoreItem, back: seq<StoreItem>, lookup: string -> Option<string>)
    requires Collected([x], lookup) == []
    ensures Collected(front + [x] + back, lookup) == Collected(front + back, lookup)
  {
    CollectedAppend(front + [x], back, lookup);
    CollectedAppend(front, [x], lookup);
    CollectedAppend(front, back, lookup);
  }

  /** An item without a filename whose lookup fails is dropped, and only it:
      the other items contribute exactly what they would without it. */
  lemma FailedLookupDropsOnlyThatItem(items: seq<StoreItem>, k: nat, lookup: string -> Option<string>)
    requires k < |items|
    requires !Truthy(items[k].filename) && lookup(FileIdOf(items[k])).None?
    ensures Collected(items, lookup) == Collected(items[..k] + items[k + 1..], lookup)
  {
    CollectedSkipsSilentItem(items[k], lookup);
    assert items == items[..k] + [items[k]] + items[k + 1..];
    CollectedDropsSilentItem(items[..k], items[k], items[k + 1..], lookup);
  }

  /** The names are the same whatever the metadata lookup answers for items
      that carry their own filename. */
  lemma {:induction false} FilenameTakesPrecedence(items: seq<StoreItem>, lookup: string -> Option<string>, other: string -> Option<string>)
    requires forall i :: 0 <= i < |items| ==> Truthy(items[i].filename)
    ensures Collected(items, lookup) == Collected(items, other)
    decreases |items|
  {
    if items != [] {
      var init := items[..|items| - 1];
      assert forall i :: 0 <= i < |init| ==> init[i] == items[i];
      FilenameTakesPrecedence(init, lookup, other);
    }
  }

  /** `get_common_filenames`: `[]` when no common store is configured or the
      listing fails; otherwise the collected names, sorted and de-duplicated. */
  method CommonFilenames(commonStore: Option<string>, listing: Option<seq<StoreItem>>, lookup: string -> Option<string>)
    returns (names: seq<string>)
    ensures !Configured(commonStore) || listing.None? ==> names == []
    ensures Configured(commonStore) && listing.Some? ==>
      names == SortedUnique(Collected(listing.value, lookup))
    ensures StrictlySorted(names)
    ensures "" !in names
    ensures Configured(commonStore) && listing.Some? ==> forall n :: n in names <==>
      exists i :: 0 <= i < |listing.value| && ItemName(listing.value[i], lookup) == Some(n)
  {
    if !Truthy(commonStore) {
      return [];
    }
    if listing.None? {
      return [];
    }
    var items := listing.value;
    var found: seq<string> := [];
    for i := 0 to |items|
      invariant found == Collected(items[..i], lookup)
    {
      var it := items[i];
      assert items[..i + 1][..i] == items[..i] && items[..i + 1][i] == it;
      assert Collected(items[..i + 1], lookup)
          == found + (match ItemName(it, lookup) case Some(n) => [n] case None => []);
      var fid := FileIdOf(it);
      var name := it.filename;
      if name.Some? && name.value != "" {
        found := found + [name.value];
      } else if fid != "" {
        var meta := lookup(fid);
        if meta.Some? && meta.value != "" {
          found := found + [meta.value];
        }
      }
    }
    assert items[..|items|] == items;
    names := SortedUnique(found);
    forall n
      ensures n in names <==> exists i :: 0 <= i < |items| && ItemName(items[i], lookup) == Some(n)
    {
      CollectedMembers(items, lookup, n);
    }
  }
}
