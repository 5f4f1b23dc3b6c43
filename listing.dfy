/** The browsable view of an archive: one list item per entry read, and the
    children of a folder, directories first and then by name. */
module Listing {
  import opened Paths
  import opened Zip

  /** The fields of a list item the screen uses: its path inside the archive,
      its display name, whether it is a directory, and its modification time. */
  datatype ListItem = ListItem(path: string, mName: string, isDirectory: bool, modified: int)

  /** The item built for one entry: the name without its one trailing '/', the
      last segment of that as display name, the entry's directory flag, and the
      entry's time when the platform offers it (Android 8 and later), else 0. */
  function ItemOf(e: ZipEntry, oreoPlus: bool): ListItem {
    var path := RemoveSlashSuffix(e.name);
    ListItem(path, FileName(path), e.IsDirectory(), if oreoPlus then e.modifiedMillis else 0)
  }

  /** An item's path is the entry name less one trailing '/' exactly when the
      entry is a directory; its name is the path's last segment. */
  lemma ItemOfShape(e: ZipEntry, oreoPlus: bool)
    ensures var item := ItemOf(e, oreoPlus);
      && item.path + (if e.IsDirectory() then "/" else "") == e.name
      && item.isDirectory == e.IsDirectory()
      && '/' !in item.mName && item.mName == FileName(item.path)
      && item.modified == if oreoPlus then e.modifiedMillis else 0
  {
    var path := RemoveSlashSuffix(e.name);
    if !e.IsDirectory() { assert path + "" == path; }
  }

  /** The items `fillAllListItems` appends for the entries read, in order. */
  function ItemsOf(entries: seq<StoredEntry>, oreoPlus: bool): seq<ListItem>
    decreases |entries|
  {
    if entries == [] then []
    else ItemsOf(entries[..|entries| - 1], oreoPlus) + [ItemOf(entries[|entries| - 1].header, oreoPlus)]
  }

  /** Exactly one item per entry, in stream order; duplicate names stay
      duplicated. */
  lemma {:induction false} ItemsOfShape(entries: seq<StoredEntry>, oreoPlus: bool)
    ensures |ItemsOf(entries, oreoPlus)| == |entries|
    ensures forall i :: 0 <= i < |entries| ==> ItemsOf(entries, oreoPlus)[i] == ItemOf(entries[i].header, oreoPlus)
    decreases |entries|
  {
    if entries != [] {
      var init := entries[..|entries| - 1];
      ItemsOfShape(init, oreoPlus);
      var items := ItemsOf(entries, oreoPlus);
      assert items == ItemsOf(init, oreoPlus) + [ItemOf(entries[|entries| - 1].header, oreoPlus)];
      forall i | 0 <= i < |entries| ensures items[i] == ItemOf(entries[i].header, oreoPlus) {
        if i < |init| {
          assert init[i].header == entries[i].header;
          assert items[i] == ItemsOf(init, oreoPlus)[i];
          assert items[i] == ItemOf(init[i].header, oreoPlus);
        } else {
          assert i == |ItemsOf(init, oreoPlus)|;
          assert items[i] == ItemOf(entries[|entries| - 1].header, oreoPlus);
        }
      }
    }
  }

  lemma ItemsOfSnoc(entries: seq<StoredEntry>, e: StoredEntry, oreoPlus: bool)
    ensures ItemsOf(entries + [e], oreoPlus) == ItemsOf(entries, oreoPlus) + [ItemOf(e.header, oreoPlus)]
  {
    assert (entries + [e])[..|entries|] == entries;
  }

  /** The items whose parent path is `parent`, in their original order. */
  function Children(all: seq<ListItem>, parent: string): (r: seq<ListItem>)
    ensures forall x :: x in r ==> x in all && ParentPath(x.path) == parent
    ensures forall x :: x in all && ParentPath(x.path) == parent ==> x in r
  {
    if all == [] then []
    else
      var rest := Children(all[..|all| - 1], parent);
      var x := all[|all| - 1];
      if ParentPath(x.path) == parent then rest + [x] else rest
  }

  /** Kotlin's `String.compareTo(b) <= 0`: lexicographic order on characters,
      a proper prefix coming first. */
  predicate NameLe(a: string, b: string)
    decreases |a|
  {
    a == [] || (b != [] && (a[0] < b[0] || (a[0] == b[0] && NameLe(a[1..], b[1..]))))
  }

  lemma {:induction false} NameLeReflexive(a: string)
    ensures NameLe(a, a)
    decreases |a|
  {
    if a != [] { NameLeReflexive(a[1..]); }
  }

  lemma {:induction false} NameLeTotal(a: string, b: string)
    ensures NameLe(a, b) || NameLe(b, a)
    decreases |a|
  {
    if a != [] && b != [] && a[0] == b[0] { NameLeTotal(a[1..], b[1..]); }
  }

  lemma {:induction false} NameLeTransitive(a: string, b: string, c: string)
    requires NameLe(a, b) && NameLe(b, c)
    ensures NameLe(a, c)
    decreases |a|
  {
    if a != [] && a[0] == b[0] && b[0] == c[0] { NameLeTransitive(a[1..], b[1..], c[1..]); }
  }

  lemma {:induction false} NameLeAntisymmetric(a: string, b: string)
    requires NameLe(a, b) && NameLe(b, a)
    ensures a == b
    decreases |a|
  {
    if a != [] {
      NameLeAntisymmetric(a[1..], b[1..]);
      assert a == [a[0]] + a[1..] && b == [b[0]] + b[1..];
    }
  }

  /** The order `compareBy({ !it.isDirectory }, { it.mName })` sorts by:
      directories before files, then by name. */
  predicate Before(x: ListItem, y: ListItem) {
    (x.isDirectory && !y.isDirectory) || (x.isDirectory == y.isDirectory && NameLe(x.mName, y.mName))
  }

  /** Two items the comparator ranks equal. */
  predicate SameKey(x: ListItem, y: ListItem) {
    x.isDirectory == y.isDirectory && x.mName == y.mName
  }

  lemma BeforeTotal(x: ListItem, y: ListItem)
    ensures Before(x, y) || Before(y, x)
    ensures Before(x, y) && Before(y, x) <==> SameKey(x, y)
  {
    NameLeTotal(x.mName, y.mName);
    NameLeReflexive(x.mName);
    if Before(x, y) && Before(y, x) { NameLeAntisymmetric(x.mName, y.mName); }
  }

  lemma BeforeTransitive(x: ListItem, y: ListItem, z: ListItem)
    requires Before(x, y) && Before(y, z)
    ensures Before(x, z)
  {
    if x.isDirectory == y.isDirectory == z.isDirectory { NameLeTransitive(x.mName, y.mName, z.mName); }
  }

  /** Sorted by `Before`: pairwise, every item is ranked no later than any
      item after it. */
  predicate Ordered(s: seq<ListItem>) {
    forall i, j :: 0 <= i < j < |s| ==> Before(s[i], s[j])
  }

  /** The items ranked equal to `key`, in their order in `s`. */
  function Ties(s: seq<ListItem>, key: ListItem): seq<ListItem> {
    if s == [] then []
    else Ties(s[..|s| - 1], key) + (if SameKey(s[|s| - 1], key) then [s[|s| - 1]] else [])
  }

  /** Puts `x` in front of the first item it is ranked no later than. */
  function Insert(x: ListItem, l: seq<ListItem>): seq<ListItem>
    decreases |l|
  {
    if l == [] then [x]
    else if Before(x, l[0]) then [x] + l
    else [l[0]] + Insert(x, l[1..])
  }

  /** A stable insertion sort by `Before` (Kotlin's `sortedWith` is stable). */
  function SortItems(s: seq<ListItem>): seq<ListItem>
    decreases |s|
  {
    if s == [] then [] else Insert(s[0], SortItems(s[1..]))
  }

  /** The children of `parent`, directories first, then by name
      (`getFolderItems`). */
  function FolderItems(all: seq<ListItem>, parent: string): seq<ListItem> {
    SortItems(Children(all, parent))
  }

  // ---- Ties: the equal-key subsequence --------------------------------------

  lemma {:induction false} TiesAppend(a: seq<ListItem>, b: seq<ListItem>, key: ListItem)
    ensures Ties(a + b, key) == Ties(a, key) + Ties(b, key)
    decreases |b|
  {
    if b == [] {
      assert a + b == a;
    } else {
      assert (a + b)[..|a + b| - 1] == a + b[..|b| - 1];
      TiesAppend(a, b[..|b| - 1], key);
    }
  }

  lemma TiesSingle(x: ListItem, key: ListItem)
    ensures Ties([x], key) == if SameKey(x, key) then [x] else []
  {
    assert [x][..0] == [];
  }

  // ---- Insert ---------------------------------------------------------------

  lemma {:induction false} InsertPermutes(x: ListItem, l: seq<ListItem>)
    ensures multiset(Insert(x, l)) == multiset(l) + multiset{x}
    decreases |l|
  {
    if l != [] && !Before(x, l[0]) {
      InsertPermutes(x, l[1..]);
      assert l == [l[0]] + l[1..];
    }
  }

  lemma {:induction false} InsertOrdered(x: ListItem, l: seq<ListItem>)
    requires Ordered(l)
    ensures Ordered(Insert(x, l))
    decreases |l|
  {
    if l == [] {
    } else if Before(x, l[0]) {
      var r := [x] + l;
      forall i, j | 0 <= i < j < |r| ensures Before(r[i], r[j]) {
        if i == 0 && j > 1 { BeforeTransitive(x, l[0], l[j - 1]); }
      }
    } else {
      BeforeTotal(x, l[0]);
      var t := Insert(x, l[1..]);
      InsertOrdered(x, l[1..]);
      InsertPermutes(x, l[1..]);
      var r := [l[0]] + t;
      forall i, j | 0 <= i < j < |r| ensures Before(r[i], r[j]) {
        if i == 0 {
          assert r[j] in multiset(t);
          assert r[j] == x || r[j] in multiset(l[1..]);
          if r[j] != x {
            var k :| 0 <= k < |l[1..]| && l[1..][k] == r[j];
            assert Before(l[0], l[k + 1]);
          }
        }
      }
    }
  }

  lemma {:induction false} InsertKeepsTies(x: ListItem, l: seq<ListItem>, key: ListItem)
    ensures Ties(Insert(x, l), key) == Ties([x], key) + Ties(l, key)
    decreases |l|
  {
    if l == [] {
      assert Insert(x, l) == [x] + l;
      TiesAppend([x], l, key);
    } else if Before(x, l[0]) {
      TiesAppend([x], l, key);
    } else {
      // x goes after l[0], which is ranked strictly earlier than x
      BeforeTotal(x, l[0]);
      InsertKeepsTies(x, l[1..], key);
      TiesAppend([l[0]], Insert(x, l[1..]), key);
      TiesAppend([l[0]], l[1..], key);
      assert [l[0]] + l[1..] == l;
      TiesSingle(x, key);
      TiesSingle(l[0], key);
      if SameKey(x, key) && SameKey(l[0], key) {
        NameLeReflexive(x.mName);
        assert false;
      }
      assert Ties([x], key) + Ties([l[0]], key) == Ties([l[0]], key) + Ties([x], key);
    }
  }

  // ---- SortItems --------------------------------------------------------------

  /** The sort puts items in `Before` order, is a permutation, and is stable:
      items ranked equal keep their relative order. */
  lemma {:induction false} SortItemsCorrect(s: seq<ListItem>)
    ensures Ordered(SortItems(s))
    ensures multiset(SortItems(s)) == multiset(s)
    ensures forall key :: Ties(SortItems(s), key) == Ties(s, key)
    decreases |s|
  {
    if s != [] {
      var t := SortItems(s[1..]);
      SortItemsCorrect(s[1..]);
      InsertOrdered(s[0], t);
      InsertPermutes(s[0], t);
      assert s == [s[0]] + s[1..];
      forall key ensures Ties(SortItems(s), key) == Ties(s, key) {
        InsertKeepsTies(s[0], t, key);
        TiesAppend([s[0]], s[1..], key);
      }
    }
  }

  // ---- Children -------------------------------------------------------------

  lemma {:induction false} ChildrenCount(all: seq<ListItem>, parent: string)
    ensures forall x :: multiset(Children(all, parent))[x]
                     == if ParentPath(x.path) == parent then multiset(all)[x] else 0
    decreases |all|
  {
    if all != [] {
      ChildrenCount(all[..|all| - 1], parent);
      assert all == all[..|all| - 1] + [all[|all| - 1]];
    }
  }

  lemma ChildrenSnoc(s: seq<ListItem>, x: ListItem, parent: string)
    ensures Children(s + [x], parent)
         == Children(s, parent) + (if ParentPath(x.path) == parent then [x] else [])
  {
    assert (s + [x])[..|s + [x]| - 1] == s;
  }

  lemma TiesSnoc(s: seq<ListItem>, x: ListItem, key: ListItem)
    ensures Ties(s + [x], key) == Ties(s, key) + (if SameKey(x, key) then [x] else [])
  {
    assert (s + [x])[..|s + [x]| - 1] == s;
  }

  /** Filtering by parent and picking ties commute. */
  lemma {:induction false} ChildrenTies(all: seq<ListItem>, parent: string, key: ListItem)
    ensures Ties(Children(all, parent), key) == Children(Ties(all, key), parent)
    decreases |all|
  {
    if all != [] {
      var init, x := all[..|all| - 1], all[|all| - 1];
      assert all == init + [x];
      ChildrenTies(init, parent, key);
      ChildrenSnoc(init, x, parent);
      TiesSnoc(init, x, key);
      var c := Children(init, parent);
      if ParentPath(x.path) == parent {
        TiesSnoc(c, x, key);
      } else {
        assert c + [] == c;
      }
      if SameKey(x, key) {
        ChildrenSnoc(Ties(init, key), x, parent);
      } else {
        assert Ties(init, key) + [] == Ties(init, key);
      }
    }
  }

  // ---- Properties of the listing ------------------------------------------------

  /** The filter is exact: every child has the requested parent, and each item
      occurs in the result exactly as often as it occurs in `all` if its parent
      is `parent`, and not at all otherwise. */
  lemma FolderItemsExact(all: seq<ListItem>, parent: string)
    ensures forall x :: x in FolderItems(all, parent) ==> ParentPath(x.path) == parent
    ensures forall x :: multiset(FolderItems(all, parent))[x]
                     == if ParentPath(x.path) == parent then multiset(all)[x] else 0
  {
    SortItemsCorrect(Children(all, parent));
    ChildrenCount(all, parent);
    forall x | x in FolderItems(all, parent) ensures ParentPath(x.path) == parent {
      assert x in multiset(Children(all, parent));
    }
  }

  /** Directories come before files, and names never decrease within either
      group. */
  lemma FolderItemsOrdered(all: seq<ListItem>, parent: string)
    ensures var r := FolderItems(all, parent);
      && (forall i, j :: 0 <= i < j < |r| && r[j].isDirectory ==> r[i].isDirectory)
      && (forall i, j :: 0 <= i < j < |r| && r[i].isDirectory == r[j].isDirectory ==>
            NameLe(r[i].mName, r[j].mName))
  {
    SortItemsCorrect(Children(all, parent));
  }

  /** Ties keep their order from `all`: the children ranked equal to `key`
      appear in the result in the order they have in `all`. */
  lemma FolderItemsStable(all: seq<ListItem>, parent: string, key: ListItem)
    ensures Ties(FolderItems(all, parent), key) == Children(Ties(all, key), parent)
  {
    SortItemsCorrect(Children(all, parent));
    ChildrenTies(all, parent, key);
  }

  /** A folder with no children lists as empty, and only then. */
  lemma FolderItemsEmpty(all: seq<ListItem>, parent: string)
    ensures FolderItems(all, parent) == [] <==> forall x :: x in all ==> ParentPath(x.path) != parent
  {
    var c := Children(all, parent);
    SortItemsCorrect(c);
    if FolderItems(all, parent) == [] {
      assert multiset(c) == multiset{};
    }
    if forall x :: x in all ==> ParentPath(x.path) != parent {
      if c != [] {
        assert c[0] in c;
      }
    }
  }
}
