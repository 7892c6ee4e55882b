/** The category editor (components/CategoryManager.tsx): a working copy of
    the category list, the entry being renamed, and the warning shown before
    deleting a category that notes still use. */
module Categories {
  import opened Types

  /** `{id, count}`: the category awaiting confirmation and how many notes use it. */
  datatype Warning = Warning(id: Id, count: nat)

  /** `Partial<CategoryConfig>`: the fields to overwrite. */
  datatype Patch = Patch(id: Option<Id>, name: Option<string>, icon: Option<string>, color: Option<string>)

  /** `getNotesCount`: how many notes carry the category. */
  function NotesCount(notes: seq<Note>, categoryId: Id): (c: nat)
    ensures c <= |notes|
  {
    if notes == [] then 0
    else (if notes[0].category == categoryId then 1 else 0) + NotesCount(notes[1..], categoryId)
  }

  /** The count is positive exactly when some note uses the category. */
  lemma {:induction false} NotesCountPositive(notes: seq<Note>, categoryId: Id)
    ensures NotesCount(notes, categoryId) > 0 <==> exists n :: n in notes && n.category == categoryId
  {
    if notes != [] {
      NotesCountPositive(notes[1..], categoryId);
      assert forall n :: n in notes <==> n == notes[0] || n in notes[1..];
    }
  }

  /** Counting a list in two pieces adds up. */
  lemma {:induction false} NotesCountAppend(a: seq<Note>, b: seq<Note>, categoryId: Id)
    ensures NotesCount(a + b, categoryId) == NotesCount(a, categoryId) + NotesCount(b, categoryId)
  {
    if a == [] {
      assert a + b == b;
    } else {
      assert (a + b)[0] == a[0] && (a + b)[1..] == a[1..] + b;
      NotesCountAppend(a[1..], b, categoryId);
    }
  }

  function DigitChar(d: nat): char
    requires d < 10
  {
    "0123456789"[d]
  }

  function DigitValue(c: char): nat {
    if '0' <= c <= '9' then (c as int - '0' as int) as nat else 0
  }

  /** `String(n)` for a non-negative integer. */
  function Decimal(n: nat): (s: string)
    ensures |s| > 0
    decreases n
  {
    if n < 10 then [DigitChar(n)] else Decimal(n / 10) + [DigitChar(n % 10)]
  }

  function ParseDecimal(s: string): nat {
    if s == [] then 0 else ParseDecimal(s[..|s| - 1]) * 10 + DigitValue(s[|s| - 1])
  }

  /** Reading back the decimal text gives the number, so different instants
      give different category ids. */
  lemma {:induction false} DecimalRoundTrip(n: nat)
    ensures ParseDecimal(Decimal(n)) == n
    decreases n
  {
    var s := Decimal(n);
    if n < 10 {
      assert s[..0] == [];
    } else {
      DecimalRoundTrip(n / 10);
      assert s[..|s| - 1] == Decimal(n / 10);
    }
  }

  /** The id `handleAddCategory` gives a category created at `now`. */
  function NewCategoryId(now: nat): Id {
    "cat_" + Decimal(now)
  }

  lemma NewCategoryIdInjective(a: nat, b: nat)
    requires NewCategoryId(a) == NewCategoryId(b)
    ensures a == b
  {
    assert Decimal(a) == NewCategoryId(a)[4..] && Decimal(b) == NewCategoryId(b)[4..];
    DecimalRoundTrip(a);
    DecimalRoundTrip(b);
  }

  /** `{...cat, ...updates}`. */
  function Patched(c: CategoryConfig, p: Patch): CategoryConfig {
    CategoryConfig(
      if p.id.Some? then p.id.value else c.id,
      if p.name.Some? then p.name.value else c.name,
      if p.icon.Some? then p.icon.value else c.icon,
      if p.color.Some? then p.color.value else c.color)
  }

  /** `categories.map(cat => cat.id === id ? {...cat, ...updates} : cat)`. */
  function CategoriesPatched(cats: seq<CategoryConfig>, id: Id, p: Patch): (r: seq<CategoryConfig>)
    ensures |r| == |cats|
  {
    if cats == [] then []
    else [if cats[0].id == id then Patched(cats[0], p) else cats[0]] + CategoriesPatched(cats[1..], id, p)
  }

  /** Only the entries with that id change, only in the fields given, and
      the order is kept. */
  lemma {:induction false} PatchTouchesOne(cats: seq<CategoryConfig>, id: Id, p: Patch)
    ensures forall k :: 0 <= k < |cats| ==>
      CategoriesPatched(cats, id, p)[k] == if cats[k].id == id then Patched(cats[k], p) else cats[k]
  {
    if cats != [] {
      PatchTouchesOne(cats[1..], id, p);
      var r := CategoriesPatched(cats, id, p);
      forall k | 1 <= k < |cats|
        ensures r[k] == CategoriesPatched(cats[1..], id, p)[k - 1] && cats[k] == cats[1..][k - 1]
      { }
    }
  }

  /** An empty patch changes nothing. */
  lemma {:induction false} EmptyPatch(cats: seq<CategoryConfig>, id: Id)
    ensures CategoriesPatched(cats, id, Patch(None, None, None, None)) == cats
  {
    if cats != [] {
      EmptyPatch(cats[1..], id);
      assert cats == [cats[0]] + cats[1..];
    }
  }

  /** `categories.filter(cat => cat.id !== id)`. */
  function CategoriesWithout(cats: seq<CategoryConfig>, id: Id): (r: seq<CategoryConfig>)
    ensures |r| <= |cats|
  {
    if cats == [] then []
    else (if cats[0].id != id then [cats[0]] else []) + CategoriesWithout(cats[1..], id)
  }

  /** Deleting keeps exactly the categories with another id. */
  lemma {:induction false} CategoriesWithoutMembers(cats: seq<CategoryConfig>, id: Id)
    ensures forall c :: c in CategoriesWithout(cats, id) <==> c in cats && c.id != id
  {
    if cats != [] {
      CategoriesWithoutMembers(cats[1..], id);
      assert forall c :: c in cats <==> c == cats[0] || c in cats[1..];
    }
  }

  class Manager {
    /** The `notes` prop. */
    const notes: seq<Note>
    /** `localCategories`. */
    var categories: seq<CategoryConfig>
    var editingId: Option<Id>
    var deleteWarning: Option<Warning>
    var isOpen: bool

    constructor (categories: seq<CategoryConfig>, notes: seq<Note>)
      ensures this.categories == categories && this.notes == notes
      ensures editingId == None && deleteWarning == None && isOpen
    {
      this.categories := categories;
      this.notes := notes;
      editingId := None;
      deleteWarning := None;
      isOpen := true;
    }

    /** `handleAddCategory` at instant `now`: append a default category and start editing it. */
    method HandleAddCategory(now: nat)
      modifies this`categories, this`editingId
      ensures categories == old(categories) + [CategoryConfig(NewCategoryId(now), "Nueva", "Folder", "blue")]
      ensures editingId == Some(NewCategoryId(now)) && deleteWarning == old(deleteWarning)
    {
      var newId := "cat_" + Decimal(now);
      categories := categories + [CategoryConfig(newId, "Nueva", "Folder", "blue")];
      editingId := Some(newId);
    }

    method HandleUpdateCategory(id: Id, updates: Patch)
      modifies this`categories
      ensures categories == CategoriesPatched(old(categories), id, updates)
      ensures editingId == old(editingId) && deleteWarning == old(deleteWarning)
    {
      categories := CategoriesPatched(categories, id, updates);
    }

    /** `handleDeleteCategory`: a category in use only raises the warning;
        an unused one is removed at once. */
    method HandleDeleteCategory(id: Id)
      modifies this`categories, this`deleteWarning
      ensures var count := NotesCount(notes, id);
        && (count > 0 ==> deleteWarning == Some(Warning(id, count)) && categories == old(categories))
        && (count == 0 ==> deleteWarning == old(deleteWarning) && categories == CategoriesWithout(old(categories), id))
      ensures editingId == old(editingId)
    {
      var count := NotesCount(notes, id);
      if count > 0 {
        deleteWarning := Some(Warning(id, count));
      } else {
        categories := CategoriesWithout(categories, id);
      }
    }

    /** `confirmDelete`: remove the warned category and clear the warning. */
    method ConfirmDelete()
      modifies this`categories, this`deleteWarning
      ensures old(deleteWarning).None? ==> categories == old(categories) && deleteWarning == None
      ensures old(deleteWarning).Some? ==>
        categories == CategoriesWithout(old(categories), old(deleteWarning).value.id) && deleteWarning == None
      ensures editingId == old(editingId)
    {
      if deleteWarning.Some? {
        categories := CategoriesWithout(categories, deleteWarning.value.id);
        deleteWarning := None;
      }
    }

    /** `handleSave`: an empty list is refused; otherwise the list goes to `onSave` and the editor closes. */
    method HandleSave() returns (saved: Option<seq<CategoryConfig>>)
      modifies this`isOpen
      ensures saved.None? <==> |categories| == 0
      ensures saved.Some? ==> saved.value == categories && !isOpen
      ensures saved.None? ==> isOpen == old(isOpen)
      ensures categories == old(categories)
    {
      if |categories| == 0 {
        return None;
      }
      isOpen := false;
      return Some(categories);
    }
  }
}
