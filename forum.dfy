/**
 * The community forum page: after fetching the posts with their replies it
 * collects the distinct author ids, looks their roles up in one query and
 * keeps a user-to-role map from which author badges are drawn; posting a
 * question or a reply goes through trim-and-empty guards.
 */
module Forum {
  import opened Wrappers
  import opened Schema
  import opened JsString
  import opened JsArray

  datatype Reply = Reply(id: string, content: string, authorId: Option<string>)

  datatype Post = Post(id: string, title: string, content: string, authorId: Option<string>, replies: Option<seq<Reply>>)

  /** A row of `user_roles` as the role query returns it. */
  datatype RoleRow = RoleRow(userId: string, role: AppRole)

  // ---------------------------------------------------------------------------
  // fetchPosts: the author ids
  // ---------------------------------------------------------------------------

  /** `p.replies || []`. */
  function RepliesOf(p: Post): seq<Reply>
  {
    p.replies.GetOr([])
  }

  /** `u` is the truthy author of the post itself. */
  predicate WrotePost(p: Post, u: string)
  {
    p.authorId == Some(u) && u != ""
  }

  /** `u` is the truthy author of one of the first `n` replies of the post. */
  predicate WroteReplyBefore(p: Post, u: string, n: nat)
  {
    exists k | 0 <= k < n && k < |RepliesOf(p)| :: RepliesOf(p)[k].authorId == Some(u) && u != ""
  }

  /** `u` is the truthy author of one of the post's replies. */
  predicate WroteReply(p: Post, u: string)
  {
    WroteReplyBefore(p, u, |RepliesOf(p)|)
  }

  /** `u` wrote one of the posts or one of their replies. */
  ghost predicate IsAuthor(posts: seq<Post>, u: string)
  {
    exists i | 0 <= i < |posts| :: WrotePost(posts[i], u) || WroteReply(posts[i], u)
  }

  lemma AuthorSnoc(posts: seq<Post>, p: Post)
    ensures forall u :: IsAuthor(posts + [p], u) <==> IsAuthor(posts, u) || WrotePost(p, u) || WroteReply(p, u)
  {
    var ps := posts + [p];
    forall u ensures IsAuthor(ps, u) ==> IsAuthor(posts, u) || WrotePost(p, u) || WroteReply(p, u) {
      if IsAuthor(ps, u) {
        var i :| 0 <= i < |ps| && (WrotePost(ps[i], u) || WroteReply(ps[i], u));
        if i < |posts| {
          assert ps[i] == posts[i];
        }
      }
    }
    forall u ensures IsAuthor(posts, u) ==> IsAuthor(ps, u) {
      if IsAuthor(posts, u) {
        var i :| 0 <= i < |posts| && (WrotePost(posts[i], u) || WroteReply(posts[i], u));
        assert ps[i] == posts[i];
      }
    }
    forall u | WrotePost(p, u) || WroteReply(p, u) ensures IsAuthor(ps, u) {
      assert ps[|posts|] == p;
    }
  }

  /** The first loops of `fetchPosts`: add every truthy post and reply author to a Set, kept here
      as a duplicate-free sequence in insertion order. */
  method CollectAuthorIds(posts: seq<Post>) returns (ids: seq<string>)
    ensures Distinct(ids)
    ensures forall u :: u in ids <==> IsAuthor(posts, u)
  {
    ids := [];
    var i := 0;
    while i < |posts|
      invariant 0 <= i <= |posts|
      invariant Distinct(ids)
      invariant forall u :: u in ids <==> IsAuthor(posts[..i], u)
    {
      var p := posts[i];
      AuthorSnoc(posts[..i], p);
      assert posts[..i + 1] == posts[..i] + [p];
      if p.authorId.Some? && p.authorId.value != "" && p.authorId.value !in ids {
        ids := ids + [p.authorId.value];
      }
      var replies := if p.replies.Some? then p.replies.value else [];
      var j := 0;
      while j < |replies|
        invariant 0 <= j <= |replies|
        invariant Distinct(ids)
        invariant forall u :: u in ids <==> IsAuthor(posts[..i], u) || WrotePost(p, u) || WroteReplyBefore(p, u, j)
      {
        var r := replies[j];
        if r.authorId.Some? && r.authorId.value != "" && r.authorId.value !in ids {
          ids := ids + [r.authorId.value];
        }
        forall u ensures WroteReplyBefore(p, u, j + 1) <==> WroteReplyBefore(p, u, j) || (r.authorId == Some(u) && u != "") {
          if WroteReplyBefore(p, u, j + 1) {
            var k :| 0 <= k < j + 1 && k < |RepliesOf(p)| && RepliesOf(p)[k].authorId == Some(u) && u != "";
            if k == j {
              assert RepliesOf(p)[k] == r;
            }
          }
          if r.authorId == Some(u) && u != "" {
            assert RepliesOf(p)[j] == r;
          }
        }
        j := j + 1;
      }
      i := i + 1;
    }
    assert posts[..i] == posts;
  }

  // ---------------------------------------------------------------------------
  // fetchPosts: the role map
  // ---------------------------------------------------------------------------

  /** The map `fetchPosts` builds from the role rows: each row overwrites the entry of its user. */
  function RoleMap(rows: seq<RoleRow>): (m: map<string, AppRole>)
    ensures forall u :: u in m <==> exists i | 0 <= i < |rows| :: rows[i].userId == u
  {
    if |rows| == 0 then map[]
    else
      var init := rows[..|rows| - 1];
      assert forall i | 0 <= i < |init| :: init[i] == rows[i];
      RoleMap(init)[rows[|rows| - 1].userId := rows[|rows| - 1].role]
  }

  /** Row `i` is the last row for its user. */
  predicate IsLastFor(rows: seq<RoleRow>, i: nat)
    requires i < |rows|
  {
    forall j | i < j < |rows| :: rows[j].userId != rows[i].userId
  }

  /** The last row of a user decides that user's role. */
  lemma {:induction false} RoleMapLastRow(rows: seq<RoleRow>, i: nat)
    requires i < |rows| && IsLastFor(rows, i)
    ensures rows[i].userId in RoleMap(rows) && RoleMap(rows)[rows[i].userId] == rows[i].role
  {
    if i < |rows| - 1 {
      var init := rows[..|rows| - 1];
      assert init[i] == rows[i];
      assert IsLastFor(init, i) by {
        forall j | i < j < |init| ensures init[j].userId != init[i].userId {
          assert init[j] == rows[j];
        }
      }
      RoleMapLastRow(init, i);
      assert rows[|rows| - 1].userId != rows[i].userId;
    }
  }

  /** The map has an entry for exactly the users with a row, and when several rows share a user
      the last of them decides the role. */
  lemma RoleMapLastWins(rows: seq<RoleRow>)
    ensures forall u :: u in RoleMap(rows) <==> exists i | 0 <= i < |rows| :: rows[i].userId == u
    ensures forall i | 0 <= i < |rows| && IsLastFor(rows, i) :: RoleMap(rows)[rows[i].userId] == rows[i].role
  {
    forall i | 0 <= i < |rows| && IsLastFor(rows, i) ensures RoleMap(rows)[rows[i].userId] == rows[i].role {
      RoleMapLastRow(rows, i);
    }
  }

  /** The loop that fills `map` from `roles || []`. */
  method BuildRoleMap(rows: seq<RoleRow>) returns (m: map<string, AppRole>)
    ensures m == RoleMap(rows)
  {
    m := map[];
    var i := 0;
    while i < |rows|
      invariant 0 <= i <= |rows|
      invariant m == RoleMap(rows[..i])
    {
      assert rows[..i + 1][..i] == rows[..i];
      m := m[rows[i].userId := rows[i].role];
      i := i + 1;
    }
    assert rows[..i] == rows;
  }

  // ---------------------------------------------------------------------------
  // badges and access
  // ---------------------------------------------------------------------------

  /** `roleLabel`: only a user whose entry says mentor gets the mentor badge. */
  function RoleLabel(rolesByUserId: map<string, AppRole>, userId: Option<string>): (badge: string)
    ensures badge == "(Mentor)" || badge == "(Student)"
    ensures badge == "(Mentor)" <==> Truthy(userId) && userId.value in rolesByUserId && rolesByUserId[userId.value] == Mentor
  {
    if !Truthy(userId) then "(Student)"
    else if userId.value in rolesByUserId && rolesByUserId[userId.value] == Mentor then "(Mentor)"
    else "(Student)"
  }

  /** Admins may moderate but are badged as students, and so is anyone without a role entry. */
  lemma AdminBadgedAsStudent(rolesByUserId: map<string, AppRole>, u: string)
    requires u !in rolesByUserId || rolesByUserId[u] != Mentor
    ensures RoleLabel(rolesByUserId, Some(u)) == "(Student)"
    ensures IsMentorOrAdmin(Some(Admin)) && !IsMentorOrAdmin(Some(Junior)) && !IsMentorOrAdmin(None)
  {
  }

  // ---------------------------------------------------------------------------
  // the guards of handleCreatePost and handleReply
  // ---------------------------------------------------------------------------

  datatype PostCheck = PostNeedsSignIn | PostIncomplete | PostAccepted(title: string, content: string)

  /** The checks of `handleCreatePost` before the insert. */
  function CheckPost(user: Option<string>, title: string, content: string): (c: PostCheck)
    ensures user.None? <==> c == PostNeedsSignIn
    ensures c.PostAccepted? <==> user.Some? && Trim(title) != "" && Trim(content) != ""
    ensures c.PostAccepted? ==> c.title == Trim(title) && c.content == Trim(content)
  {
    if user.None? then PostNeedsSignIn
    else if Trim(title) == "" || Trim(content) == "" then PostIncomplete
    else PostAccepted(Trim(title), Trim(content))
  }

  /** Non-empty, and neither first nor last character is whitespace. */
  predicate Trimmed(t: string)
  {
    t != "" && !IsJsWhitespace(t[0]) && !IsJsWhitespace(t[|t| - 1])
  }

  /** What survives trimming is tidy and is taken from what was typed. */
  lemma TrimmedInput(s: string)
    requires Trim(s) != ""
    ensures Trimmed(Trim(s)) && Includes(s, Trim(s))
  {
    TrimSpec(s);
  }

  /** An accepted post's title and content are tidy and occur in what was typed; a title or
      content of whitespace alone is refused. */
  lemma AcceptedPostIsTrimmed(user: Option<string>, title: string, content: string)
    ensures var c := CheckPost(user, title, content);
      c.PostAccepted? ==> Trimmed(c.title) && Includes(title, c.title) && Trimmed(c.content) && Includes(content, c.content)
    ensures user.Some? && (forall i | 0 <= i < |title| :: IsJsWhitespace(title[i])) ==> CheckPost(user, title, content) == PostIncomplete
    ensures user.Some? && (forall i | 0 <= i < |content| :: IsJsWhitespace(content[i])) ==> CheckPost(user, title, content) == PostIncomplete
  {
    TrimSpec(title);
    TrimSpec(content);
    if CheckPost(user, title, content).PostAccepted? {
      TrimmedInput(title);
      TrimmedInput(content);
    }
  }

  /** `replyTextByPost[postId] || ""`. */
  function DraftFor(drafts: map<string, string>, postId: string): (draft: string)
    ensures postId !in drafts ==> draft == ""
    ensures postId in drafts ==> draft == drafts[postId]
  {
    if postId in drafts then drafts[postId] else ""
  }

  datatype ReplyCheck = ReplyNeedsSignIn | ReplyEmpty | ReplyAccepted(text: string)

  /** The checks of `handleReply` before the insert. */
  function CheckReply(user: Option<string>, drafts: map<string, string>, postId: string): (c: ReplyCheck)
    ensures user.None? <==> c == ReplyNeedsSignIn
    ensures c.ReplyAccepted? <==> user.Some? && Trim(DraftFor(drafts, postId)) != ""
    ensures c.ReplyAccepted? ==> c.text == Trim(DraftFor(drafts, postId))
  {
    if user.None? then ReplyNeedsSignIn
    else
      var text := Trim(DraftFor(drafts, postId));
      if text == "" then ReplyEmpty else ReplyAccepted(text)
  }

  /** An accepted reply is the tidy core of the post's draft; a missing draft or one of
      whitespace alone is refused. */
  lemma AcceptedReplyIsTrimmed(user: Option<string>, drafts: map<string, string>, postId: string)
    ensures var c := CheckReply(user, drafts, postId);
      c.ReplyAccepted? ==> Trimmed(c.text) && Includes(DraftFor(drafts, postId), c.text)
    ensures user.Some? && postId !in drafts ==> CheckReply(user, drafts, postId) == ReplyEmpty
    ensures user.Some? && postId in drafts && (forall i | 0 <= i < |drafts[postId]| :: IsJsWhitespace(drafts[postId][i]))
      ==> CheckReply(user, drafts, postId) == ReplyEmpty
  {
    var d := DraftFor(drafts, postId);
    TrimSpec(d);
    if CheckReply(user, drafts, postId).ReplyAccepted? {
      TrimmedInput(d);
    }
  }

  /** A row sent to `forum_posts`. */
  datatype Insert = Insert(title: string, content: string, authorId: string)

  /** A row sent to `forum_replies`. */
  datatype ReplyInsert = ReplyInsert(postId: string, content: string, authorId: string)

  // ---------------------------------------------------------------------------
  // the page state
  // ---------------------------------------------------------------------------

  class ForumPage {
    var posts: seq<Post>
    var rolesByUserId: map<string, AppRole>
    var newTitle: string
    var newContent: string
    var replyTextByPost: map<string, string>
    var userRole: Option<AppRole>

    constructor ()
      ensures posts == [] && rolesByUserId == map[] && newTitle == "" && newContent == ""
      ensures replyTextByPost == map[] && userRole == None
    {
      posts := [];
      rolesByUserId := map[];
      newTitle := "";
      newContent := "";
      replyTextByPost := map[];
      userRole := None;
    }

    /** `fetchPosts`. `fetched` is the answer of the posts query (`None` when it failed) and
        `roles` that of the role query; `lookedUp` says whether the role query is made at all. */
    method FetchPosts(fetched: Option<seq<Post>>, roles: Option<seq<RoleRow>>) returns (lookedUp: bool)
      modifies this
      ensures posts == fetched.GetOr([])
      ensures lookedUp <==> exists u :: IsAuthor(posts, u)
      ensures lookedUp ==> rolesByUserId == RoleMap(roles.GetOr([]))
      ensures !lookedUp ==> rolesByUserId == map[]
      ensures newTitle == old(newTitle) && newContent == old(newContent)
      ensures replyTextByPost == old(replyTextByPost) && userRole == old(userRole)
    {
      var fetchedPosts := if fetched.Some? then fetched.value else [];
      posts := fetchedPosts;
      var userIds := CollectAuthorIds(fetchedPosts);
      if |userIds| > 0 {
        assert userIds[0] in userIds;
        var rows := if roles.Some? then roles.value else [];
        rolesByUserId := BuildRoleMap(rows);
        lookedUp := true;
      } else {
        rolesByUserId := map[];
        lookedUp := false;
      }
    }

    /** `fetchUserRole`: `data?.role || null` for a signed-in user; nothing happens otherwise. */
    method FetchUserRole(user: Option<string>, role: Option<AppRole>)
      modifies this
      ensures userRole == (if user.Some? then role else old(userRole))
      ensures posts == old(posts) && rolesByUserId == old(rolesByUserId)
      ensures newTitle == old(newTitle) && newContent == old(newContent) && replyTextByPost == old(replyTextByPost)
    {
      if user.None? {
        return;
      }
      userRole := role;
    }

    /** `handleCreatePost`; `storeOk` is the outcome of the insert. The refetch that follows a
        success is a separate `FetchPosts`. */
    method CreatePost(user: Option<string>, storeOk: bool) returns (inserted: Option<Insert>)
      modifies this
      ensures var c := CheckPost(user, old(newTitle), old(newContent));
        && (inserted.Some? <==> c.PostAccepted?)
        && (inserted.Some? ==> inserted.value == Insert(c.title, c.content, user.value))
      ensures inserted.Some? && storeOk ==> newTitle == "" && newContent == ""
      ensures !(inserted.Some? && storeOk) ==> newTitle == old(newTitle) && newContent == old(newContent)
      ensures posts == old(posts) && rolesByUserId == old(rolesByUserId)
      ensures replyTextByPost == old(replyTextByPost) && userRole == old(userRole)
    {
      if user.None? {
        return None;
      }
      if Trim(newTitle) == "" || Trim(newContent) == "" {
        return None;
      }
      inserted := Some(Insert(Trim(newTitle), Trim(newContent), user.value));
      if !storeOk {
        return;
      }
      newTitle := "";
      newContent := "";
    }

    /** `handleReply`; on success only the draft of the answered post is cleared. */
    method PostReply(postId: string, user: Option<string>, storeOk: bool) returns (inserted: Option<ReplyInsert>)
      modifies this
      ensures var c := CheckReply(user, old(replyTextByPost), postId);
        && (inserted.Some? <==> c.ReplyAccepted?)
        && (inserted.Some? ==> inserted.value == ReplyInsert(postId, c.text, user.value))
      ensures inserted.Some? && storeOk ==> replyTextByPost == old(replyTextByPost)[postId := ""]
      ensures !(inserted.Some? && storeOk) ==> replyTextByPost == old(replyTextByPost)
      ensures forall q | q != postId :: DraftFor(replyTextByPost, q) == DraftFor(old(replyTextByPost), q)
      ensures posts == old(posts) && rolesByUserId == old(rolesByUserId)
      ensures newTitle == old(newTitle) && newContent == old(newContent) && userRole == old(userRole)
    {
      if user.None? {
        return None;
      }
      var text := Trim(if postId in replyTextByPost then replyTextByPost[postId] else "");
      if text == "" {
        return None;
      }
      inserted := Some(ReplyInsert(postId, text, user.value));
      if !storeOk {
        return;
      }
      replyTextByPost := replyTextByPost[postId := ""];
    }
  }
}
