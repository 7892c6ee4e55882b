/** The checklist and attachment list operations shared by the dashboard
    toggle (App.tsx) and the editor (components/NoteEditor.tsx): each maps or
    filters a list by entry id and keeps the order. */
module Checklist {
  import opened Types

  /** `items.map(i => i.id === id ? {...i, completed: !i.completed} : i)`. */
  function ItemsToggled(items: seq<NoteItem>, id: Id): (r: seq<NoteItem>)
    ensures |r| == |items|
  {
    if items == [] then []
    else
      var i := items[0];
      [if i.id == id then i.(completed := !i.completed) else i] + ItemsToggled(items[1..], id)
  }

  /** Toggling flips `completed` on the entries with that id and on no other,
      and leaves every id and text as it was. */
  lemma {:induction false} ToggleFlipsMatching(items: seq<NoteItem>, id: Id)
    ensures forall k :: 0 <= k < |items| ==>
      && ItemsToggled(items, id)[k].id == items[k].id
      && ItemsToggled(items, id)[k].text == items[k].text
      && (ItemsToggled(items, id)[k].completed <==> (items[k].completed != (items[k].id == id)))
  {
    if items != [] {
      ToggleFlipsMatching(items[1..], id);
      var r := ItemsToggled(items, id);
      forall k | 1 <= k < |items|
        ensures r[k] == ItemsToggled(items[1..], id)[k - 1] && items[k] == items[1..][k - 1]
      { }
    }
  }

  /** Toggling the same id twice gives the list back. */
  lemma {:induction false} ToggleTwice(items: seq<NoteItem>, id: Id)
    ensures ItemsToggled(ItemsToggled(items, id), id) == items
  {
    if items != [] {
      var r := ItemsToggled(items, id);
      assert r[1..] == ItemsToggled(items[1..], id);
      ToggleTwice(items[1..], id);
      assert items == [items[0]] + items[1..];
    }
  }

  /** `items.map(i => i.id === id ? {...i, text} : i)`. */
  function ItemsWithText(items: seq<NoteItem>, id: Id, text: string): (r: seq<NoteItem>)
    ensures |r| == |items|
  {
    if items == [] then []
    else
      var i := items[0];
      [if i.id == id then i.(text := text) else i] + ItemsWithText(items[1..], id, text)
  }

  /** Editing changes only the text of the entries with that id. */
  lemma {:induction false} WithTextChangesMatching(items: seq<NoteItem>, id: Id, text: string)
    ensures forall k :: 0 <= k < |items| ==>
      && ItemsWithText(items, id, text)[k].id == items[k].id
      && ItemsWithText(items, id, text)[k].completed == items[k].completed
      && ItemsWithText(items, id, text)[k].text == (if items[k].id == id then text else items[k].text)
  {
    if items != [] {
      WithTextChangesMatching(items[1..], id, text);
      var r := ItemsWithText(items, id, text);
      forall k | 1 <= k < |items|
        ensures r[k] == ItemsWithText(items[1..], id, text)[k - 1] && items[k] == items[1..][k - 1]
      { }
    }
  }

  /** Of two edits to the same entry, the later one is what remains. */
  lemma {:induction false} WithTextLastWins(items: seq<NoteItem>, id: Id, a: string, b: string)
    ensures ItemsWithText(ItemsWithText(items, id, a), id, b) == ItemsWithText(items, id, b)
  {
    if items != [] {
      var r := ItemsWithText(items, id, a);
      assert r[1..] == ItemsWithText(items[1..], id, a);
      WithTextLastWins(items[1..], id, a, b);
    }
  }

  /** `items.filter(i => i.id !== id)`. */
  function ItemsWithout(items: seq<NoteItem>, id: Id): (r: seq<NoteItem>)
    ensures |r| <= |items|
  {
    if items == [] then []
    else (if items[0].id != id then [items[0]] else []) + ItemsWithout(items[1..], id)
  }

  /** Deleting keeps exactly the entries with another id. */
  lemma {:induction false} ItemsWithoutMembers(items: seq<NoteItem>, id: Id)
    ensures forall i :: i in ItemsWithout(items, id) <==> i in items && i.id != id
  {
    if items != [] {
      ItemsWithoutMembers(items[1..], id);
      assert forall i :: i in items <==> i == items[0] || i in items[1..];
    }
  }

  /** An id that no entry carries deletes nothing. */
  lemma {:induction false} ItemsWithoutAbsent(items: seq<NoteItem>, id: Id)
    requires forall i :: i in items ==> i.id != id
    ensures ItemsWithout(items, id) == items
  {
    if items != [] {
      assert items[0] in items;
      assert forall i :: i in items[1..] ==> i in items;
      ItemsWithoutAbsent(items[1..], id);
      assert items == [items[0]] + items[1..];
    }
  }

  /** Deleting an id a second time changes nothing. */
  lemma ItemsWithoutTwice(items: seq<NoteItem>, id: Id)
    ensures ItemsWithout(ItemsWithout(items, id), id) == ItemsWithout(items, id)
  {
    ItemsWithoutMembers(items, id);
    ItemsWithoutAbsent(ItemsWithout(items, id), id);
  }

  /** `attachments.filter(a => a.id !== id)`. */
  function AttachmentsWithout(atts: seq<MediaAttachment>, id: Id): (r: seq<MediaAttachment>)
    ensures |r| <= |atts|
  {
    if atts == [] then []
    else (if atts[0].id != id then [atts[0]] else []) + AttachmentsWithout(atts[1..], id)
  }

  /** Removing keeps exactly the attachments with another id. */
  lemma {:induction false} AttachmentsWithoutMembers(atts: seq<MediaAttachment>, id: Id)
    ensures forall a :: a in AttachmentsWithout(atts, id) <==> a in atts && a.id != id
  {
    if atts != [] {
      AttachmentsWithoutMembers(atts[1..], id);
      assert forall a :: a in atts <==> a == atts[0] || a in atts[1..];
    }
  }

  /** An id that no attachment carries removes nothing. */
  lemma {:induction false} AttachmentsWithoutAbsent(atts: seq<MediaAttachment>, id: Id)
    requires forall a :: a in atts ==> a.id != id
    ensures AttachmentsWithout(atts, id) == atts
  {
    if atts != [] {
      assert atts[0] in atts;
      assert forall a :: a in atts[1..] ==> a in atts;
      AttachmentsWithoutAbsent(atts[1..], id);
      assert atts == [atts[0]] + atts[1..];
    }
  }
}
