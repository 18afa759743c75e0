/**
 * A company's page: its resources filtered by interview round, the icon
 * drawn for each resource, the download counter, and the set of resources
 * the signed-in user has bookmarked, which a toggle keeps in step with the
 * store.
 */
module CompanyDetail {
  import opened Wrappers
  import opened Schema
  import opened JsArray

  // ---------------------------------------------------------------------------
  // the round tabs
  // ---------------------------------------------------------------------------

  /** `r => r.round_type === selectedRound`. */
  function InRound(selectedRound: string): Resource -> bool
  {
    (r: Resource) => RoundName(r.roundType) == selectedRound
  }

  /** `filteredResources`: the "all" tab is the whole list; another tab keeps, in their order,
      exactly the resources whose round it names, so a name that is no round shows nothing. */
  function FilteredResources(resources: seq<Resource>, selectedRound: string): (shown: seq<Resource>)
    ensures selectedRound == "all" ==> shown == resources
    ensures selectedRound != "all" ==>
      forall x :: x in shown <==> x in resources && RoundName(x.roundType) == selectedRound
    ensures IsSubsequence(shown, resources)
  {
    if selectedRound == "all" then
      SubsequenceReflexive(resources);
      resources
    else
      FilterMembership(resources, InRound(selectedRound));
      FilterIsSubsequence(resources, InRound(selectedRound));
      Filter(resources, InRound(selectedRound))
  }

  lemma {:induction false} SubsequenceReflexive(s: seq<Resource>)
    ensures IsSubsequence(s, s)
  {
    if |s| > 0 {
      SubsequenceReflexive(s[1..]);
    }
  }

  /** Each resource shows under the tab of its own round and under no other round's tab. */
  lemma RoundTabsPartition(resources: seq<Resource>, t: RoundType)
    ensures forall x :: x in FilteredResources(resources, RoundName(t)) <==> x in resources && x.roundType == t
  {
    forall x: Resource ensures RoundName(x.roundType) == RoundName(t) <==> x.roundType == t {
      RoundNameInjective(x.roundType, t);
    }
  }

  // ---------------------------------------------------------------------------
  // icons and the download counter
  // ---------------------------------------------------------------------------

  datatype Icon = VideoIcon | LinkIcon | FileIcon

  /** `getResourceIcon`. */
  function ResourceIcon(t: ResourceType): (icon: Icon)
    ensures icon == VideoIcon <==> t == Video
    ensures icon == LinkIcon <==> t == Link
    ensures icon == FileIcon <==> t in {Pdf, Doc, Other}
  {
    match t
    case Video => VideoIcon
    case Link => LinkIcon
    case _ => FileIcon
  }

  /** The count `handleDownload` writes: `(download_count || 0) + 1`. */
  function NextDownloadCount(count: Option<int>): (next: int)
    ensures count.None? ==> next == 1
    ensures count.Some? ==> next == count.value + 1
  {
    (if count.Some? && count.value != 0 then count.value else 0) + 1
  }

  /** A missing or non-negative count becomes positive and exceeds the stored one by one. */
  lemma DownloadCountPositive(count: Option<int>)
    requires count.None? || count.value >= 0
    ensures NextDownloadCount(count) >= 1
    ensures NextDownloadCount(count) == count.GetOr(0) + 1
  {
  }

  // ---------------------------------------------------------------------------
  // bookmarks
  // ---------------------------------------------------------------------------

  /** A row of the bookmark query, `select("resource_id")`. */
  datatype BookmarkRow = BookmarkRow(resourceId: string)

  /** `new Set(bookmarksData?.map(b => b.resource_id) || [])`. */
  function BookmarkedIds(rows: seq<BookmarkRow>): (ids: set<string>)
    ensures forall id :: id in ids <==> exists i | 0 <= i < |rows| :: rows[i].resourceId == id
  {
    set i | 0 <= i < |rows| :: rows[i].resourceId
  }

  /** The set after a toggle the store accepted: the id leaves if it was in, joins otherwise. */
  function Toggled(bookmarks: set<string>, resourceId: string): (next: set<string>)
    ensures resourceId in next <==> resourceId !in bookmarks
    ensures forall other | other != resourceId :: other in next <==> other in bookmarks
  {
    if resourceId in bookmarks then bookmarks - {resourceId} else bookmarks + {resourceId}
  }

  /** Toggling twice restores the set. */
  lemma ToggleTwice(bookmarks: set<string>, resourceId: string)
    ensures Toggled(Toggled(bookmarks, resourceId), resourceId) == bookmarks
  {
  }

  /** What `toggleBookmark` asks of the store. */
  datatype BookmarkRequest = NoRequest | DeleteBookmark(userId: string, resourceId: string) | InsertBookmark(userId: string, resourceId: string)

  class CompanyPage {
    var resources: seq<Resource>
    var bookmarks: set<string>
    var selectedRound: string

    constructor ()
      ensures resources == [] && bookmarks == {} && selectedRound == "all"
    {
      resources := [];
      bookmarks := {};
      selectedRound := "all";
    }

    /** The list and bookmark part of `fetchCompanyData`: the fetched resources (none when the
        query failed), and for a signed-in user the ids of the fetched bookmark rows. */
    method FetchCompanyData(user: Option<string>, fetchedResources: Option<seq<Resource>>, bookmarkRows: Option<seq<BookmarkRow>>)
      modifies this
      ensures resources == fetchedResources.GetOr([])
      ensures bookmarks == if user.Some? then BookmarkedIds(bookmarkRows.GetOr([])) else old(bookmarks)
      ensures selectedRound == old(selectedRound)
    {
      if user.Some? {
        var rows := if bookmarkRows.Some? then bookmarkRows.value else [];
        bookmarks := BookmarkedIds(rows);
      }
      resources := if fetchedResources.Some? then fetchedResources.value else [];
    }

    /** `toggleBookmark`; `storeOk` is the outcome of the delete or insert. */
    method ToggleBookmark(resourceId: string, user: Option<string>, storeOk: bool) returns (request: BookmarkRequest)
      modifies this
      ensures user.None? ==> request == NoRequest
      ensures user.Some? && resourceId in old(bookmarks) ==> request == DeleteBookmark(user.value, resourceId)
      ensures user.Some? && resourceId !in old(bookmarks) ==> request == InsertBookmark(user.value, resourceId)
      ensures bookmarks == if user.Some? && storeOk then Toggled(old(bookmarks), resourceId) else old(bookmarks)
      ensures resources == old(resources) && selectedRound == old(selectedRound)
    {
      if user.None? {
        return NoRequest;
      }
      var isBookmarked := resourceId in bookmarks;
      if isBookmarked {
        request := DeleteBookmark(user.value, resourceId);
        if storeOk {
          var next := bookmarks;
          next := next - {resourceId};
          bookmarks := next;
        }
      } else {
        request := InsertBookmark(user.value, resourceId);
        if storeOk {
          bookmarks := bookmarks + {resourceId};
        }
      }
    }
  }
}
