/**
 * The General Resources folder browser: resources (rows with no company)
 * carry an optional `/`-separated `folder_path`; the page groups them by
 * exact path, derives the set of folders from every path prefix, lists the
 * immediate sub-folders of the folder being viewed and the resources that
 * live directly in it.
 */
module GeneralResources {
  import opened Wrappers
  import opened Schema
  import opened JsString
  import opened JsArray

  // ---------------------------------------------------------------------------
  // organizeFolders: grouping by exact folder path
  // ---------------------------------------------------------------------------

  /** The group a resource goes to: its folder path, or "root" when the path is null or empty. */
  function GroupKey(r: Resource): (key: string)
    ensures key != ""
    ensures key == "root" <==> !Truthy(r.folderPath) || r.folderPath.value == "root"
    ensures key != "root" ==> r.folderPath == Some(key)
  {
    if Truthy(r.folderPath) then r.folderPath.value else "root"
  }

  /** The test "goes to the group `key`". */
  function InGroup(key: string): Resource -> bool
  {
    r => GroupKey(r) == key
  }

  /** The resources of `data` that go to the group `key`, in input order. */
  function DirectMembers(data: seq<Resource>, key: string): seq<Resource>
  {
    Filter(data, InGroup(key))
  }

  /** The keys that some resource goes to. */
  function GroupKeys(data: seq<Resource>): set<string>
  {
    set r | r in data :: GroupKey(r)
  }

  /** The intended folder map: one entry per key in use, holding the direct members of that key. */
  function Groups(data: seq<Resource>): map<string, seq<Resource>>
  {
    map key | key in GroupKeys(data) :: DirectMembers(data, key)
  }

  /** A group that no resource goes to is empty. */
  lemma NoMembersOutsideKeys(data: seq<Resource>, key: string)
    requires key !in GroupKeys(data)
    ensures DirectMembers(data, key) == []
  {
    FilterKeepsNone(data, InGroup(key));
  }

  /** Appending one resource adds its key to the keys in use. */
  lemma GroupKeysSnoc(data: seq<Resource>, r: Resource)
    ensures GroupKeys(data + [r]) == GroupKeys(data) + {GroupKey(r)}
  {
    assert forall x :: x in data + [r] <==> x in data || x == r;
  }

  /** Appending one resource extends its own group by it and leaves every other group alone. */
  lemma DirectMembersSnoc(data: seq<Resource>, r: Resource, key: string)
    ensures DirectMembers(data + [r], key) == DirectMembers(data, key) + (if key == GroupKey(r) then [r] else [])
  {
    FilterAppend(data, [r], InGroup(key));
    assert Filter([r], InGroup(key)) == (if key == GroupKey(r) then [r] else []) by {
      assert [r][1..] == [];
    }
  }

  /** The folder map after filing `r` at the end of its group, creating the group on first use. */
  function Filed(folderMap: map<string, seq<Resource>>, r: Resource): map<string, seq<Resource>>
  {
    var k := GroupKey(r);
    folderMap[k := (if k in folderMap then folderMap[k] else []) + [r]]
  }

  /** Appending one resource files it into the intended map. */
  lemma GroupsSnoc(data: seq<Resource>, r: Resource)
    ensures Groups(data + [r]) == Filed(Groups(data), r)
  {
    var g' := Groups(data + [r]);
    var expected := Filed(Groups(data), r);
    GroupKeysSnoc(data, r);
    assert g'.Keys == expected.Keys;
    forall key | key in g'.Keys ensures g'[key] == expected[key] {
      GroupsSnocAt(data, r, key);
    }
  }

  lemma GroupsSnocAt(data: seq<Resource>, r: Resource, key: string)
    requires key in GroupKeys(data + [r])
    ensures Groups(data + [r])[key] == Filed(Groups(data), r)[key]
  {
    DirectMembersSnoc(data, r, key);
    var k := GroupKey(r);
    if key == k && k !in GroupKeys(data) {
      NoMembersOutsideKeys(data, k);
    }
  }

  /** The rows filed one after the other, as the loop of `organizeFolders` does. */
  function Grouped(data: seq<Resource>): map<string, seq<Resource>>
  {
    if |data| == 0 then map[] else Filed(Grouped(data[..|data| - 1]), data[|data| - 1])
  }

  /** Filing the rows one by one yields the intended map. */
  lemma {:induction false} GroupedIsGroups(data: seq<Resource>)
    ensures Grouped(data) == Groups(data)
  {
    if |data| == 0 {
      assert GroupKeys(data) == {};
    } else {
      var init := data[..|data| - 1];
      GroupedIsGroups(init);
      GroupsSnoc(init, data[|data| - 1]);
      assert data == init + [data[|data| - 1]];
    }
  }

  /** `organizeFolders`: walk the rows and push each onto the list of its key, creating the list
      on first use. The result has one entry per key in use, holding that key's rows in order. */
  method OrganizeFolders(data: seq<Resource>) returns (folderMap: map<string, seq<Resource>>)
    ensures folderMap == Groups(data)
  {
    folderMap := map[];
    var i := 0;
    while i < |data|
      invariant 0 <= i <= |data|
      invariant folderMap == Grouped(data[..i])
    {
      var resource := data[i];
      var path := if resource.folderPath.Some? && resource.folderPath.value != "" then resource.folderPath.value else "root";
      ghost var before := folderMap;
      if path !in folderMap {
        folderMap := folderMap[path := []];
      }
      folderMap := folderMap[path := folderMap[path] + [resource]];
      assert folderMap == Filed(before, resource);
      assert data[..i + 1][..i] == data[..i];
      i := i + 1;
    }
    assert data[..i] == data;
    GroupedIsGroups(data);
  }

  /** Every resource lands in the group of its key, every group holds only resources of its key,
      no group is empty, and each group keeps the input order. */
  lemma GroupingPartitions(data: seq<Resource>)
    ensures forall r | r in data :: GroupKey(r) in Groups(data) && r in Groups(data)[GroupKey(r)]
    ensures forall key, r | key in Groups(data) && r in Groups(data)[key] :: r in data && GroupKey(r) == key
    ensures forall key | key in Groups(data) :: Groups(data)[key] != [] && IsSubsequence(Groups(data)[key], data)
  {
    forall key | key in GroupKeys(data) ensures
      && (forall r :: r in DirectMembers(data, key) <==> r in data && GroupKey(r) == key)
      && DirectMembers(data, key) != []
      && IsSubsequence(DirectMembers(data, key), data)
    {
      FilterMembership(data, InGroup(key));
      FilterIsSubsequence(data, InGroup(key));
      var r :| r in data && GroupKey(r) == key;
      assert r in DirectMembers(data, key);
    }
  }

  /** Sum of the group sizes over a list of keys. */
  function GroupSizes(data: seq<Resource>, keys: seq<string>): nat
  {
    if |keys| == 0 then 0 else |DirectMembers(data, keys[0])| + GroupSizes(data, keys[1..])
  }

  lemma {:induction false} GroupSizesSnoc(data: seq<Resource>, r: Resource, keys: seq<string>)
    requires Distinct(keys)
    ensures GroupSizes(data + [r], keys) == GroupSizes(data, keys) + (if GroupKey(r) in keys then 1 else 0)
  {
    if |keys| > 0 {
      FilterAppend(data, [r], InGroup(keys[0]));
      assert Filter([r], InGroup(keys[0])) == (if GroupKey(r) == keys[0] then [r] else []) by {
        assert [r][1..] == [];
      }
      assert Distinct(keys[1..]);
      GroupSizesSnoc(data, r, keys[1..]);
      assert keys == [keys[0]] + keys[1..];
      assert keys[0] !in keys[1..];
    }
  }

  /** No resource is counted twice or lost: over any duplicate-free list of keys that covers
      every key in use, the group sizes add up to the number of resources. */
  lemma {:induction false} GroupSizesAddUp(data: seq<Resource>, keys: seq<string>)
    requires Distinct(keys)
    requires forall r | r in data :: GroupKey(r) in keys
    ensures GroupSizes(data, keys) == |data|
  {
    if |data| == 0 {
      ZeroSizes(keys);
    } else {
      var init := data[..|data| - 1];
      var r := data[|data| - 1];
      assert data == init + [r];
      assert forall x | x in init :: x in data;
      GroupSizesAddUp(init, keys);
      GroupSizesSnoc(init, r, keys);
    }
  }

  lemma {:induction false} ZeroSizes(keys: seq<string>)
    ensures GroupSizes([], keys) == 0
  {
    if |keys| > 0 {
      ZeroSizes(keys[1..]);
    }
  }

  // ---------------------------------------------------------------------------
  // Finding: organizeFolders keys a plain object literal
  // ---------------------------------------------------------------------------

  /** The names an empty object literal already answers to through Object.prototype. */
  const ObjectPrototypeNames: set<string> := {
    "constructor", "hasOwnProperty", "isPrototypeOf", "propertyIsEnumerable",
    "toLocaleString", "toString", "valueOf", "__proto__",
    "__defineGetter__", "__defineSetter__", "__lookupGetter__", "__lookupSetter__"
  }

  /** `organizeFolders` exactly as written, on a `{}` object: a key that is missing as an own
      property but inherited from Object.prototype reads as truthy, so the list is not created
      and `.push` is called on a function (or on Object.prototype), which throws. `None` is that
      TypeError. */
  function FolderMapAsWritten(data: seq<Resource>): Option<map<string, seq<Resource>>>
  {
    if |data| == 0 then Some(map[])
    else
      match FolderMapAsWritten(data[..|data| - 1])
      case None => None
      case Some(m) =>
        var r := data[|data| - 1];
        var path := GroupKey(r);
        if path in m then Some(m[path := m[path] + [r]])
        else if path in ObjectPrototypeNames then None
        else Some(m[path := [r]])
  }

  /** A single resource filed under "constructor" (or any other inherited name) makes the
      as-written grouping throw, where the intended grouping has one group holding it. */
  lemma PrototypeFolderThrows(r: Resource)
    requires GroupKey(r) in ObjectPrototypeNames
    ensures FolderMapAsWritten([r]).None?
    ensures Groups([r]) == map[GroupKey(r) := [r]]
  {
    assert [r][..0] == [];
    GroupedIsGroups([r]);
    assert Grouped([]) == map[];
    assert [] + [r] == [r];
  }

  /** Away from the inherited names the as-written grouping is the intended one. */
  lemma AsWrittenAgreesElsewhere(data: seq<Resource>)
    requires forall r | r in data :: GroupKey(r) !in ObjectPrototypeNames
    ensures FolderMapAsWritten(data) == Some(Groups(data))
  {
    AsWrittenIsGrouped(data);
    GroupedIsGroups(data);
  }

  lemma {:induction false} AsWrittenIsGrouped(data: seq<Resource>)
    requires forall r | r in data :: GroupKey(r) !in ObjectPrototypeNames
    ensures FolderMapAsWritten(data) == Some(Grouped(data))
  {
    if |data| > 0 {
      var init := data[..|data| - 1];
      assert forall x | x in init :: x in data;
      AsWrittenIsGrouped(init);
      assert data[|data| - 1] in data;
      assert [] + [data[|data| - 1]] == [data[|data| - 1]];
    }
  }

  // ---------------------------------------------------------------------------
  // getFolderHierarchy: every prefix of every path is a folder
  // ---------------------------------------------------------------------------

  /** The row has a truthy `folder_path`. */
  predicate HasFolderPath(r: Resource)
  {
    Truthy(r.folderPath)
  }

  /** `folder_path.split("/")`. */
  function Segments(r: Resource): (parts: seq<string>)
    requires HasFolderPath(r)
    ensures |parts| >= 1
  {
    Split(r.folderPath.value, '/')
  }

  /** `parts.slice(0, k).join("/")`: the folder made of the first `k` segments of the row's path. */
  function FolderPrefix(r: Resource, k: nat): string
    requires HasFolderPath(r) && 1 <= k <= |Segments(r)|
  {
    Join(Segments(r)[..k], '/')
  }

  /** `f` is the first `k` segments (k >= 1) of the path of some row with a truthy path. */
  ghost predicate IsRegistered(rs: seq<Resource>, f: string)
  {
    exists i, k | 0 <= i < |rs| && HasFolderPath(rs[i]) && 1 <= k <= |Segments(rs[i])| :: f == FolderPrefix(rs[i], k)
  }

  /** The prefixes of one more row are added to the folders already registered. */
  lemma RegisteredSnoc(rs: seq<Resource>, r: Resource)
    ensures forall f :: IsRegistered(rs + [r], f) <==>
      IsRegistered(rs, f) || (HasFolderPath(r) && exists k | 1 <= k <= |Segments(r)| :: f == FolderPrefix(r, k))
  {
    var rs' := rs + [r];
    forall f ensures IsRegistered(rs', f) ==>
      IsRegistered(rs, f) || (HasFolderPath(r) && exists k | 1 <= k <= |Segments(r)| :: f == FolderPrefix(r, k))
    {
      if IsRegistered(rs', f) {
        var i, k :| 0 <= i < |rs'| && HasFolderPath(rs'[i]) && 1 <= k <= |Segments(rs'[i])| && f == FolderPrefix(rs'[i], k);
        if i < |rs| {
          assert rs'[i] == rs[i];
        } else {
          assert rs'[i] == r;
        }
      }
    }
    forall f ensures IsRegistered(rs, f) ==> IsRegistered(rs', f) {
      if IsRegistered(rs, f) {
        var i, k :| 0 <= i < |rs| && HasFolderPath(rs[i]) && 1 <= k <= |Segments(rs[i])| && f == FolderPrefix(rs[i], k);
        assert rs'[i] == rs[i];
      }
    }
    forall f, k | HasFolderPath(r) && 1 <= k <= |Segments(r)| && f == FolderPrefix(r, k) ensures IsRegistered(rs', f) {
      assert rs'[|rs|] == r;
    }
  }

  /** `getFolderHierarchy`: add every prefix of every truthy path to a Set (kept here as a
      duplicate-free sequence in insertion order), then `Array.from(...).sort()`. */
  method FolderHierarchy(resources: seq<Resource>) returns (hierarchy: seq<string>)
    ensures StrictlySorted(hierarchy)
    ensures forall f :: f in hierarchy <==> IsRegistered(resources, f)
  {
    var folderSet: seq<string> := [];
    var i := 0;
    while i < |resources|
      invariant 0 <= i <= |resources|
      invariant Distinct(folderSet)
      invariant forall f :: f in folderSet <==> IsRegistered(resources[..i], f)
    {
      var r := resources[i];
      RegisteredSnoc(resources[..i], r);
      assert resources[..i + 1] == resources[..i] + [r];
      if r.folderPath.Some? && r.folderPath.value != "" {
        var parts := Split(r.folderPath.value, '/');
        var index := 0;
        while index < |parts|
          invariant 0 <= index <= |parts|
          invariant Distinct(folderSet)
          invariant forall f :: f in folderSet <==>
            IsRegistered(resources[..i], f) || exists k | 1 <= k <= index :: f == FolderPrefix(r, k)
        {
          var folder := Join(parts[..index + 1], '/');
          assert folder == FolderPrefix(r, index + 1);
          if folder !in folderSet {
            folderSet := folderSet + [folder];
          }
          index := index + 1;
        }
      }
      i := i + 1;
    }
    assert resources[..i] == resources;
    hierarchy := Sort(folderSet);
    SortDistinct(folderSet);
  }

  /** A registered folder's own segments are the leading segments of the path it came from. */
  lemma PrefixSegments(r: Resource, k: nat)
    requires HasFolderPath(r) && 1 <= k <= |Segments(r)|
    ensures Split(FolderPrefix(r, k), '/') == Segments(r)[..k]
  {
    SplitHasNoSeparator(r.folderPath.value, '/');
    SplitJoin(Segments(r)[..k], '/');
  }

  /** The hierarchy is closed under prefixes: with "A/B/C" registered, so are "A" and "A/B". */
  lemma HierarchyPrefixClosed(rs: seq<Resource>, f: string, j: nat)
    requires IsRegistered(rs, f)
    requires 1 <= j <= |Split(f, '/')|
    ensures IsRegistered(rs, Join(Split(f, '/')[..j], '/'))
  {
    var i, k :| 0 <= i < |rs| && HasFolderPath(rs[i]) && 1 <= k <= |Segments(rs[i])| && f == FolderPrefix(rs[i], k);
    PrefixSegments(rs[i], k);
    assert Split(f, '/')[..j] == Segments(rs[i])[..j];
    assert Join(Split(f, '/')[..j], '/') == FolderPrefix(rs[i], j);
  }

  /** The full path of every row with a truthy path is itself a registered folder. */
  lemma OwnFolderRegistered(rs: seq<Resource>, i: nat)
    requires i < |rs| && HasFolderPath(rs[i])
    ensures IsRegistered(rs, rs[i].folderPath.value)
  {
    JoinSplit(rs[i].folderPath.value, '/');
    assert Segments(rs[i])[..|Segments(rs[i])|] == Segments(rs[i]);
    assert rs[i].folderPath.value == FolderPrefix(rs[i], |Segments(rs[i])|);
  }

  // ---------------------------------------------------------------------------
  // currentFolders: the immediate sub-folders of the folder being viewed
  // ---------------------------------------------------------------------------

  /** The `currentFolders` test: under a non-empty path, one segment deeper and starting with
      that path and a slash; at the top, a single segment. */
  predicate Listed(currentPath: string, f: string)
  {
    if currentPath != "" then
      StartsWith(f, currentPath + "/") && |Split(f, '/')| == |Split(currentPath, '/')| + 1
    else
      |Split(f, '/')| == 1
  }

  function ListedUnder(currentPath: string): string -> bool
  {
    f => Listed(currentPath, f)
  }

  /** `currentFolders`: the hierarchy entries that pass the listing test, in hierarchy order. */
  function CurrentFolders(hierarchy: seq<string>, currentPath: string): (listed: seq<string>)
    ensures IsSubsequence(listed, hierarchy)
    ensures forall f :: f in listed <==> f in hierarchy && Listed(currentPath, f)
  {
    FilterMembership(hierarchy, ListedUnder(currentPath));
    FilterIsSubsequence(hierarchy, ListedUnder(currentPath));
    Filter(hierarchy, ListedUnder(currentPath))
  }

  /** `f` is `p`, a slash and one more segment. */
  predicate IsChildFolder(f: string, p: string)
  {
    StartsWith(f, p + "/") && '/' !in f[|p| + 1..]
  }

  /** Below a prefix `p + "/"`, having one segment more than `p` means the rest has no slash. */
  lemma ChildDepth(f: string, p: string)
    requires StartsWith(f, p + "/")
    ensures |Split(f, '/')| == |Split(p, '/')| + 1 <==> '/' !in f[|p| + 1..]
  {
    var rest := f[|p| + 1..];
    assert f == p + ['/'] + rest by {
      assert f[..|p| + 1] == p + "/";
    }
    SplitConcat(p, rest, '/');
    SplitSingleIff(rest, '/');
  }

  /** At the top, the listing is exactly the registered folders without a slash. */
  lemma RootFolders(hierarchy: seq<string>)
    ensures forall f :: f in CurrentFolders(hierarchy, "") <==> f in hierarchy && '/' !in f
  {
    FilterMembership(hierarchy, ListedUnder(""));
    forall f ensures Listed("", f) <==> '/' !in f {
      SplitSingleIff(f, '/');
    }
  }

  /** Under a non-empty path, the listing is exactly the registered immediate children of it. */
  lemma ChildFolders(hierarchy: seq<string>, p: string)
    requires p != ""
    ensures forall f :: f in CurrentFolders(hierarchy, p) <==> f in hierarchy && IsChildFolder(f, p)
  {
    FilterMembership(hierarchy, ListedUnder(p));
    forall f ensures Listed(p, f) <==> IsChildFolder(f, p) {
      if StartsWith(f, p + "/") {
        ChildDepth(f, p);
      }
    }
  }

  /** The listing keeps the order of the hierarchy, so it is sorted and free of duplicates too. */
  lemma CurrentFoldersKeepOrder(hierarchy: seq<string>, p: string)
    ensures IsSubsequence(CurrentFolders(hierarchy, p), hierarchy)
    ensures StrictlySorted(hierarchy) ==> StrictlySorted(CurrentFolders(hierarchy, p))
  {
    if StrictlySorted(hierarchy) {
      SubsequenceStrictlySorted(CurrentFolders(hierarchy, p), hierarchy);
    }
  }

  /** The folder a listed child sits in is itself registered. */
  lemma ListedChildHasRegisteredParent(rs: seq<Resource>, f: string, p: string)
    requires p != "" && IsRegistered(rs, f) && IsChildFolder(f, p)
    ensures IsRegistered(rs, p)
  {
    ChildDepth(f, p);
    var rest := f[|p| + 1..];
    assert f == p + ['/'] + rest by {
      assert f[..|p| + 1] == p + "/";
    }
    SplitConcat(p, rest, '/');
    SplitWithoutSeparator(rest, '/');
    var n := |Split(p, '/')|;
    assert Split(f, '/')[..n] == Split(p, '/');
    JoinSplit(p, '/');
    HierarchyPrefixClosed(rs, f, n);
  }

  // ---------------------------------------------------------------------------
  // currentResources and the folder cards
  // ---------------------------------------------------------------------------

  /** `folders[currentPath || "root"] || []`, reading own entries only: the group of the folder
      viewed ("root" at the top), or nothing when that folder has no group. */
  function CurrentResources(folders: map<string, seq<Resource>>, currentPath: string): (shown: seq<Resource>)
    ensures var key := if currentPath != "" then currentPath else "root";
      && (key in folders ==> shown == folders[key])
      && (key !in folders ==> shown == [])
  {
    var key := if currentPath != "" then currentPath else "root";
    if key in folders then folders[key] else []
  }

  /** The resources shown are the direct members of the folder viewed (of "root" at the top),
      in input order; none comes from a sub-folder, and there are none when no row is filed there. */
  lemma CurrentResourcesAreDirect(data: seq<Resource>, currentPath: string)
    ensures var key := if currentPath != "" then currentPath else "root";
      && CurrentResources(Groups(data), currentPath) == DirectMembers(data, key)
      && (forall r :: r in CurrentResources(Groups(data), currentPath) <==> r in data && GroupKey(r) == key)
  {
    var key := if currentPath != "" then currentPath else "root";
    if key !in GroupKeys(data) {
      NoMembersOutsideKeys(data, key);
    }
    FilterMembership(data, InGroup(key));
  }

  /** What a folder card shows. */
  datatype FolderCard = FolderCard(path: string, name: string, count: nat)

  /** The card of folder `path`: `path.split("/").pop()` as its name and, reading own entries
      only, `folders[path]?.length || 0` as its count. */
  function FolderCardOf(folders: map<string, seq<Resource>>, path: string): (card: FolderCard)
    ensures card.path == path
    ensures '/' !in card.name && EndsWith(path, card.name)
    ensures path in folders ==> card.count == |folders[path]|
    ensures path !in folders ==> card.count == 0
  {
    SplitHasNoSeparator(path, '/');
    LastPieceEnds(path, '/');
    FolderCard(path, Last(Split(path, '/')), if path in folders then |folders[path]| else 0)
  }

  /** A card counts the direct members of its folder only: a folder holding nothing but
      sub-folders shows 0. */
  lemma FolderCardCountsDirectMembers(data: seq<Resource>, path: string)
    ensures FolderCardOf(Groups(data), path).count == |DirectMembers(data, path)|
    ensures (forall r | r in data :: GroupKey(r) != path) ==> FolderCardOf(Groups(data), path).count == 0
  {
    if path !in GroupKeys(data) {
      NoMembersOutsideKeys(data, path);
    }
  }

  /** A card's name is the folder's last segment: the whole path for a top-level folder, what
      follows `p + "/"` for a child of `p`. */
  lemma FolderCardName(folders: map<string, seq<Resource>>, p: string, f: string)
    ensures '/' !in FolderCardOf(folders, f).name
    ensures Listed("", f) ==> FolderCardOf(folders, f).name == f
    ensures p != "" && Listed(p, f) ==> f == p + "/" + FolderCardOf(folders, f).name
  {
    SplitHasNoSeparator(f, '/');
    if Listed("", f) {
      SplitSingleIff(f, '/');
      SplitWithoutSeparator(f, '/');
    }
    if p != "" && Listed(p, f) {
      ChildDepth(f, p);
      var rest := f[|p| + 1..];
      assert f == p + ['/'] + rest by {
        assert f[..|p| + 1] == p + "/";
      }
      SplitConcat(p, rest, '/');
      SplitWithoutSeparator(rest, '/');
    }
  }

  // ---------------------------------------------------------------------------
  // Finding: the page reads the folder object through its prototype
  // ---------------------------------------------------------------------------

  /** What `folders[key]` yields on the object `organizeFolders` builds: an own list, a method
      inherited from Object.prototype (its `length` is its declared parameter count),
      Object.prototype itself for "__proto__" (which has no `length`), or undefined. */
  datatype PropertyRead = OwnList(list: seq<Resource>) | InheritedMethod(length: nat) | InheritedPrototype | Undefined

  /** The `length` of the Object.prototype method called `name`. */
  function InheritedLength(name: string): nat
    requires name in ObjectPrototypeNames && name != "__proto__"
  {
    if name == "toLocaleString" || name == "toString" || name == "valueOf" then 0
    else if name == "__defineGetter__" || name == "__defineSetter__" then 2
    else 1
  }

  /** `folders[key]` as JavaScript reads it: own entries first, then Object.prototype. */
  function ReadFolder(folders: map<string, seq<Resource>>, key: string): (v: PropertyRead)
    ensures v.OwnList? <==> key in folders
    ensures v.OwnList? ==> v.list == folders[key]
    ensures v.Undefined? <==> key !in folders && key !in ObjectPrototypeNames
  {
    if key in folders then OwnList(folders[key])
    else if key == "__proto__" then InheritedPrototype
    else if key in ObjectPrototypeNames then InheritedMethod(InheritedLength(key))
    else Undefined
  }

  /** What the resource area renders once loading has finished. */
  datatype ResourceArea = ResourceList(shown: seq<Resource>) | NoResources | RenderThrows

  /** The resource area exactly as written: `folders[currentPath || "root"] || []`, then
      `currentResources.length > 0 ? currentResources.map(...) : ...`. An inherited method with a
      parameter is truthy and has a positive `length`, and functions have no `map`, so the render
      throws; Object.prototype has no `length` and shows the empty state. */
  function ResourceAreaAsWritten(folders: map<string, seq<Resource>>, currentPath: string): (area: ResourceArea)
    ensures area.ResourceList? ==> area.shown != [] && area.shown == CurrentResources(folders, currentPath)
    ensures var key := if currentPath != "" then currentPath else "root";
      area.RenderThrows? <==> key !in folders && key in ObjectPrototypeNames && key != "__proto__" && InheritedLength(key) > 0
  {
    var key := if currentPath != "" then currentPath else "root";
    match ReadFolder(folders, key)
    case OwnList(list) => if |list| > 0 then ResourceList(list) else NoResources
    case InheritedMethod(n) => if n > 0 then RenderThrows else NoResources
    case InheritedPrototype => NoResources
    case Undefined => NoResources
  }

  /** A folder card's count exactly as written: `folders[folderPath]?.length || 0`, which for an
      inherited method is its parameter count. */
  function CardCountAsWritten(folders: map<string, seq<Resource>>, path: string): (count: nat)
    ensures path in folders ==> count == |folders[path]|
    ensures path !in folders && path !in ObjectPrototypeNames ==> count == 0
    ensures path !in folders && path in ObjectPrototypeNames && path != "__proto__" ==> count == InheritedLength(path)
  {
    match ReadFolder(folders, path)
    case OwnList(list) => |list|
    case InheritedMethod(n) => n
    case InheritedPrototype => 0
    case Undefined => 0
  }

  /** Where the key is an own entry or not an inherited name, both as-written reads are the
      own-entry reads the rest of the model uses. */
  lemma LookupsAgreeElsewhere(folders: map<string, seq<Resource>>, path: string)
    requires path in folders || path !in ObjectPrototypeNames
    ensures CardCountAsWritten(folders, path) == FolderCardOf(folders, path).count
    ensures var shown := CurrentResources(folders, path);
      ResourceAreaAsWritten(folders, path) == if shown != [] then ResourceList(shown) else NoResources
  {
  }

  /** One resource filed under "constructor/notes": grouping does not throw, the prefix
      "constructor" is registered and listed at the top, and its card reads `Object.length`, 1,
      where it holds no resource; opening it makes the render call `map` on `Object`. */
  lemma PrototypePrefixFolderMisread(r: Resource)
    requires r.folderPath == Some("constructor/notes")
    ensures FolderMapAsWritten([r]) == Some(Groups([r]))
    ensures IsRegistered([r], "constructor") && Listed("", "constructor")
    ensures CardCountAsWritten(Groups([r]), "constructor") == 1
    ensures FolderCardOf(Groups([r]), "constructor").count == 0
    ensures ResourceAreaAsWritten(Groups([r]), "constructor") == RenderThrows
    ensures CurrentResources(Groups([r]), "constructor") == []
  {
    PrefixFolderGroups(r);
    PrefixFolderRegistered(r);
  }

  lemma PrefixFolderGroups(r: Resource)
    requires r.folderPath == Some("constructor/notes")
    ensures FolderMapAsWritten([r]) == Some(Groups([r]))
    ensures "constructor" !in Groups([r])
  {
    assert GroupKey(r) == "constructor/notes";
    AsWrittenAgreesElsewhere([r]);
    GroupKeysSnoc([], r);
    assert [] + [r] == [r];
    assert GroupKeys([]) == {};
    assert |"constructor"| != |"constructor/notes"|;
  }

  lemma PrefixFolderRegistered(r: Resource)
    requires r.folderPath == Some("constructor/notes")
    ensures IsRegistered([r], "constructor") && Listed("", "constructor")
  {
    assert r.folderPath.value == "constructor" + ['/'] + "notes";
    SplitTwo("constructor", "notes", '/');
    assert Segments(r)[..1] == ["constructor"];
    assert FolderPrefix(r, 1) == "constructor";
    assert [r][0] == r;
    PrefixSegments(r, 1);
  }
}
