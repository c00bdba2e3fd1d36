/**
  The history view of src/view-history.tsx: lists every stored record newest
  first, picks an icon by provenance, and deletes an upload remotely before
  dropping its local record, only when the gateway confirms with status 204.
 */
module History {
  import opened ImageTypes
  import opened LocalStore
  import opened Gateway

  /** Creation times never increase along the list. */
  predicate NewestFirst(list: seq<ImageRecord>) {
    forall i, j :: 0 <= i < j < |list| ==> list[i].createdAt >= list[j].createdAt
  }

  /**
    Puts `x` into a newest-first list, before every record that is not newer
    than it, so that records with equal times keep their order.
   */
  function Insert(x: ImageRecord, list: seq<ImageRecord>): (r: seq<ImageRecord>)
    requires NewestFirst(list)
    ensures NewestFirst(r)
    ensures |r| == |list| + 1
    ensures r[0] == x || (list != [] && r[0] == list[0])
  {
    if list == [] then [x]
    else if list[0].createdAt <= x.createdAt then [x] + list
    else
      var rest := Insert(x, list[1..]);
      assert rest[0].createdAt <= list[0].createdAt;
      assert forall i :: 0 <= i < |rest| ==> rest[i].createdAt <= list[0].createdAt;
      [list[0]] + rest
  }

  /** Inserting adds `x` and keeps every other record. */
  lemma {:induction false} InsertPermutes(x: ImageRecord, list: seq<ImageRecord>)
    requires NewestFirst(list)
    ensures multiset(Insert(x, list)) == multiset(list) + multiset{x}
  {
    if list != [] && list[0].createdAt > x.createdAt {
      InsertPermutes(x, list[1..]);
      assert list == [list[0]] + list[1..];
      assert Insert(x, list) == [list[0]] + Insert(x, list[1..]);
    }
  }

  /**
    `.sort((a, b) => b.createdAt - a.createdAt)`: the records ordered by
    creation time, newest first, as a stable sort orders them.
   */
  function SortNewestFirst(list: seq<ImageRecord>): (r: seq<ImageRecord>)
    ensures NewestFirst(r)
    ensures multiset(r) == multiset(list)
  {
    if list == [] then []
    else
      var rest := SortNewestFirst(list[1..]);
      InsertPermutes(list[0], rest);
      assert list == [list[0]] + list[1..];
      Insert(list[0], rest)
  }

  /**
    `list` is what the history shows for store `items`: the stored records, one
    per key, in newest-first order.
   */
  ghost predicate IsHistoryOf(list: seq<ImageRecord>, items: Items) {
    && NewestFirst(list)
    && exists keys :: Enumerates(keys, items) && multiset(list) == multiset(ValuesAt(items, keys))
  }

  /** The history has one entry per stored key, holds every stored record, and nothing else. */
  lemma HistoryMatchesStore(list: seq<ImageRecord>, items: Items)
    requires IsHistoryOf(list, items)
    ensures |list| == |items|
    ensures forall k :: k in items ==> items[k] in list
    ensures forall x :: x in list ==> exists k :: k in items && items[k] == x
  {
    var keys :| Enumerates(keys, items) && multiset(list) == multiset(ValuesAt(items, keys));
    var values := ValuesAt(items, keys);
    EnumerationLength(keys, items);
    assert |list| == |multiset(list)| == |multiset(values)| == |values|;
    forall k | k in items ensures items[k] in list {
      StoredRecordListed(list, items, keys, k);
    }
    forall x | x in list ensures exists k :: k in items && items[k] == x {
      ListedRecordStored(list, items, keys, x);
    }
  }

  /** A stored record appears in a list with the same elements as the enumerated values. */
  lemma StoredRecordListed(list: seq<ImageRecord>, items: Items, keys: seq<string>, k: string)
    requires Enumerates(keys, items) && multiset(list) == multiset(ValuesAt(items, keys))
    requires k in items
    ensures items[k] in list
  {
    var values := ValuesAt(items, keys);
    var i :| 0 <= i < |keys| && keys[i] == k;
    assert values[i] in multiset(values);
  }

  /** Every element of such a list is stored under some key. */
  lemma ListedRecordStored(list: seq<ImageRecord>, items: Items, keys: seq<string>, x: ImageRecord)
    requires Enumerates(keys, items) && multiset(list) == multiset(ValuesAt(items, keys))
    requires x in list
    ensures exists k :: k in items && items[k] == x
  {
    var values := ValuesAt(items, keys);
    assert x in multiset(values);
    var i :| 0 <= i < |values| && values[i] == x;
    assert items[keys[i]] == x;
  }

  /** The list icon of a record. */
  const ClipboardIcon := "SolarClipboardOutline.svg"
  const FileIcon := "SolarFileTextLinear.svg"

  /** The clipboard icon exactly for records whose `from` is `'clipboard'`, the file icon otherwise. */
  function IconFor(image: ImageRecord): (icon: string)
    ensures icon == ClipboardIcon <==> image.from == Some("clipboard")
    ensures icon == FileIcon <==> image.from != Some("clipboard")
  {
    if image.from == Some("clipboard") then ClipboardIcon else FileIcon
  }

  /** The status code by which the gateway confirms a deletion. */
  const DeletedStatus := 204

  /**
    The store after deleting `image` when the gateway answered `statusCode`:
    unchanged unless the code is exactly 204, and then without the key
    `image.hash` and nothing else. A record without a `hash` names no key.
   */
  function AfterDelete(items: Items, image: ImageRecord, statusCode: int): (r: Items)
    ensures statusCode != DeletedStatus ==> r == items
    ensures statusCode == DeletedStatus ==>
              forall k :: k in r <==> k in items && image.hash != Some(k)
    ensures forall k :: k in r ==> r[k] == items[k]
  {
    if statusCode != DeletedStatus then items
    else match image.hash
      case None => items
      case Some(h) => items - {h}
  }

  /**
    Deleting a stored record that carries its `hash`, with the gateway's 204,
    removes exactly that record from a store whose records name their keys.
   */
  lemma ConfirmedDeleteRemovesRecord(items: Items, k: string)
    requires KeysNamed(items)
    requires k in items && items[k].hash.Some?
    ensures AfterDelete(items, items[k], DeletedStatus) == items - {k}
  {
  }

  /**
    A record written by src/index.tsx has no `hash`: even a confirmed delete
    leaves it in the store.
   */
  lemma DeleteWithoutHashKeepsRecord(items: Items, k: string)
    requires k in items && items[k].hash.None?
    ensures AfterDelete(items, items[k], DeletedStatus) == items
  {
  }

  /** The history command: the shared store and gateway client, and the `images` list it shows. */
  class HistoryView {
    const store: Store
    const imagekit: ImageKit
    var images: Option<seq<ImageRecord>>

    constructor (store: Store, imagekit: ImageKit)
      ensures this.store == store && this.imagekit == imagekit
      ensures images == None
    {
      this.store := store;
      this.imagekit := imagekit;
      images := None;
    }

    /** `load`: every stored record, newest first; the store is only read. */
    method Load()
      modifies this
      ensures images.Some? && IsHistoryOf(images.value, store.items)
    {
      var keys, values := store.AllItems();
      var sorted := SortNewestFirst(values);
      assert Enumerates(keys, store.items) &&
             multiset(sorted) == multiset(ValuesAt(store.items, keys));
      images := Some(sorted);
    }

    /**
      `deleteImage`: asks the gateway to delete `image.fileId`, then removes the
      local record only if the answer is 204. The shown list is left as it is.
     */
    method DeleteImage(image: ImageRecord, statusCode: int)
      modifies store, imagekit
      ensures imagekit.deletions == old(imagekit.deletions) + [image.fileId]
      ensures imagekit.uploads == old(imagekit.uploads)
      ensures store.items == AfterDelete(old(store.items), image, statusCode)
      ensures images == old(images)
    {
      var code := imagekit.DeleteFile(image.fileId, statusCode);
      if code != DeletedStatus {
        return;
      }
      if image.hash.Some? {
        store.RemoveItem(image.hash.value);
      }
    }
  }
}
