/**
  The mutating views of reviews/views.py as functions from one store snapshot
  to the view's outcome and the next snapshot: adding, editing and deleting
  tickets, editing and deleting comments, adding and removing follow edges.
  HTTP is reduced to the current user (or an anonymous caller) and whether the
  request is a POST; redirects, flash messages and templates become outcomes.
*/
module Views {
  import opened Models

  /** The caller of a view that does not require a login. */
  datatype Caller = Anonymous | Member(id: UserId)

  /** What a ticket or comment view does with the request. */
  datatype Outcome =
    | Saved        // the change was written; redirect to the feed
    | NotOwner     // the caller does not own the record; silent redirect to the feed
    | FormPage     // not a POST: the form or the confirmation page is shown
    | InvalidForm  // a POST whose form does not validate: the form is shown again
    | NotFound404  // get_object_or_404 found no such record
    | ServerError  // Ticket.objects.get raised DoesNotExist, which the view does not catch

  datatype AddFollowOutcome =
    | FollowFormPage    // not a POST: the form is shown
    | UserLookupCrash   // no user has that name; the except clause itself raises
    | SelfFollow        // "you cannot follow yourself"
    | AlreadyFollowing  // "you already follow this user"
    | Followed          // a new edge was created

  datatype RemoveFollowOutcome = Unfollowed | FollowNotFound

  /** The outcome of a view and the store it leaves behind. */
  datatype Step<O> = Step(outcome: O, db: Db)

  // ---------------------------------------------------------------------------
  // Form validation and lookups

  /** The ticket form: a required title of at most 128 characters and an optional description of at most 2048. */
  predicate TicketFormValid(title: string, description: string) {
    0 < |title| <= TitleMaxLength && |description| <= DescriptionMaxLength
  }

  /** The comment form: a required body of at most 2048 characters. */
  predicate CommentFormValid(body: string) {
    0 < |body| <= CommentBodyMaxLength
  }

  function IndexOfTicket(ts: seq<Ticket>, id: TicketId): (r: Option<nat>)
    ensures r.Some? ==> r.value < |ts| && ts[r.value].id == id
    ensures r.None? ==> forall t :: t in ts ==> t.id != id
  {
    if ts == [] then None
    else if ts[0].id == id then Some(0)
    else match IndexOfTicket(ts[1..], id)
      case None => None
      case Some(i) => Some(i + 1)
  }

  function IndexOfComment(cs: seq<Comment>, id: nat): (r: Option<nat>)
    ensures r.Some? ==> r.value < |cs| && cs[r.value].id == id
    ensures r.None? ==> forall c :: c in cs ==> c.id != id
  {
    if cs == [] then None
    else if cs[0].id == id then Some(0)
    else match IndexOfComment(cs[1..], id)
      case None => None
      case Some(i) => Some(i + 1)
  }

  /** The position of the follow edge with primary key `id` whose follower is `user`. */
  function IndexOfOwnedFollow(fs: seq<UserFollows>, id: nat, user: UserId): (r: Option<nat>)
    ensures r.Some? ==> r.value < |fs| && fs[r.value].id == id && fs[r.value].user == user
    ensures r.None? ==> forall f :: f in fs ==> f.id != id || f.user != user
  {
    if fs == [] then None
    else if fs[0].id == id && fs[0].user == user then Some(0)
    else match IndexOfOwnedFollow(fs[1..], id, user)
      case None => None
      case Some(i) => Some(i + 1)
  }

  function FindUserByUsername(users: seq<User>, username: string): (r: Option<User>)
    ensures r.Some? ==> r.value in users && r.value.username == username
    ensures r.None? ==> forall u :: u in users ==> u.username != username
  {
    if users == [] then None
    else if users[0].username == username then Some(users[0])
    else FindUserByUsername(users[1..], username)
  }

  /** The number of edges in which `follower` follows `followed`. */
  function EdgeCount(fs: seq<UserFollows>, follower: UserId, followed: UserId): nat {
    if fs == [] then 0
    else
      (if fs[0].user == follower && fs[0].followedUser == followed then 1 else 0)
      + EdgeCount(fs[1..], follower, followed)
  }

  lemma {:induction false} EdgeCountPositive(fs: seq<UserFollows>, follower: UserId, followed: UserId)
    ensures EdgeCount(fs, follower, followed) > 0 <==>
      exists f :: f in fs && f.user == follower && f.followedUser == followed
  {
    if fs != [] {
      EdgeCountPositive(fs[1..], follower, followed);
      assert forall f :: f in fs <==> f == fs[0] || f in fs[1..];
    }
  }

  /** Under a unique (follower, followed) constraint the first edge's pair does not occur again. */
  lemma HeadPairNotInTail(fs: seq<UserFollows>)
    requires Unique(fs, FollowPair) && fs != []
    ensures forall g :: g in fs[1..] ==> FollowPair(g) != FollowPair(fs[0])
  {
    forall g | g in fs[1..]
      ensures FollowPair(g) != FollowPair(fs[0])
    {
      var j :| 0 <= j < |fs| - 1 && fs[1..][j] == g;
      if FollowPair(g) == FollowPair(fs[0]) {
        RepeatedRowCount(fs, 0, j + 1);
        assert false;
      }
    }
  }

  /** A unique (follower, followed) constraint leaves at most one edge per ordered pair. */
  lemma {:induction false} EdgeCountAtMostOne(fs: seq<UserFollows>, follower: UserId, followed: UserId)
    requires Unique(fs, FollowPair)
    ensures EdgeCount(fs, follower, followed) <= 1
  {
    if fs != [] {
      var tail := fs[1..];
      assert fs == [fs[0]] + tail;
      UniqueSubMultiset(tail, fs, FollowPair);
      EdgeCountAtMostOne(tail, follower, followed);
      if fs[0].user == follower && fs[0].followedUser == followed {
        HeadPairNotInTail(fs);
        EdgeCountPositive(tail, follower, followed);
      }
    }
  }

  lemma {:induction false} EdgeCountAppend(fs: seq<UserFollows>, e: UserFollows, follower: UserId, followed: UserId)
    ensures EdgeCount(fs + [e], follower, followed) ==
      EdgeCount(fs, follower, followed) + (if e.user == follower && e.followedUser == followed then 1 else 0)
  {
    if fs != [] {
      assert (fs + [e])[1..] == fs[1..] + [e];
      EdgeCountAppend(fs[1..], e, follower, followed);
    }
  }

  /** A row found at two positions is counted at least twice. */
  lemma RepeatedRowCount<T>(s: seq<T>, i: nat, j: nat)
    requires i < j < |s| && s[i] == s[j]
    ensures multiset(s)[s[i]] >= 2
  {
    assert s == s[..j] + [s[j]] + s[j + 1..];
    assert s[i] in s[..j];
  }

  /** The rows of `s[i := x]` are `x` and rows of `s`. */
  lemma InUpdate<T>(s: seq<T>, i: nat, x: T, y: T)
    requires i < |s| && y in s[i := x]
    ensures y == x || y in s
  {
    var j :| 0 <= j < |s| && s[i := x][j] == y;
    if j != i {
      assert s[j] == y;
    }
  }

  /** In a table unique on `key`, no other position holds a row with the key of row `i`. */
  lemma KeyAtOnePosition<T, K>(s: seq<T>, i: nat, key: T -> K)
    requires Unique(s, key) && i < |s|
    ensures forall j :: 0 <= j < |s| && j != i ==> key(s[j]) != key(s[i])
  {
    forall j | 0 <= j < |s| && j != i
      ensures key(s[j]) != key(s[i])
    {
      if key(s[j]) == key(s[i]) {
        if i < j {
          RepeatedRowCount(s, i, j);
        } else {
          RepeatedRowCount(s, j, i);
        }
        assert false;
      }
    }
  }

  /** Replacing a row by one with the same key leaves every row counted once. */
  lemma UpdateCountsOnce<T, K>(s: seq<T>, i: nat, x: T, s': seq<T>, key: T -> K)
    requires Unique(s, key) && i < |s| && key(x) == key(s[i]) && s' == s[i := x]
    ensures forall y :: y in s' ==> multiset(s')[y] == 1
  {
    assert s == s[..i] + [s[i]] + s[i + 1..];
    assert s' == s[..i] + [x] + s[i + 1..];
    assert multiset(s) == multiset(s[..i]) + multiset{s[i]} + multiset(s[i + 1..]);
    assert multiset(s') == multiset(s[..i]) + multiset{x} + multiset(s[i + 1..]);
    KeyAtOnePosition(s, i, key);
    forall y | y in s'
      ensures multiset(s')[y] == 1
    {
      if y != x {
        var j :| 0 <= j < |s| && s'[j] == y;
        assert s[j] == y;
      } else if x != s[i] {
        assert x !in s by {
          forall j | 0 <= j < |s|
            ensures s[j] != x
          {
          }
        }
      }
    }
  }

  /** Replacing a row by one with the same key keeps the rows unique. */
  lemma UniqueUpdate<T, K>(s: seq<T>, i: nat, x: T, key: T -> K)
    requires Unique(s, key) && i < |s| && key(x) == key(s[i])
    ensures Unique(s[i := x], key)
  {
    var s' := s[i := x];
    UpdateCountsOnce(s, i, x, s', key);
    forall y, z | y in s' && z in s' && key(y) == key(z)
      ensures y == z
    {
      InUpdate(s, i, x, y);
      InUpdate(s, i, x, z);
    }
  }

  // ---------------------------------------------------------------------------
  // The views

  /** add_ticket: on a valid POST the new ticket belongs to the requester. */
  function AddTicket(db: Db, requester: UserId, isPost: bool, title: string, description: string,
                     newId: TicketId, now: nat): Step<Outcome>
  {
    if !isPost then Step(FormPage, db)
    else if !TicketFormValid(title, description) then Step(InvalidForm, db)
    else Step(Saved, db.(tickets := db.tickets + [Ticket(newId, title, description, requester, now)]))
  }

  /** edit_ticket: lookup, then the owner check, then (on POST) the form saves title and description. */
  function EditTicket(db: Db, requester: UserId, ticketId: TicketId, isPost: bool,
                      title: string, description: string): Step<Outcome>
  {
    match IndexOfTicket(db.tickets, ticketId)
    case None => Step(ServerError, db)
    case Some(i) =>
      var t := db.tickets[i];
      if t.user != requester then Step(NotOwner, db)
      else if !isPost then Step(FormPage, db)
      else if !TicketFormValid(title, description) then Step(InvalidForm, db)
      else Step(Saved, db.(tickets := db.tickets[i := t.(title := title, description := description)]))
  }

  /** delete_ticket: lookup, then the owner check, then deletion (with its cascade) only on POST. */
  function DeleteTicket(db: Db, requester: UserId, ticketId: TicketId, isPost: bool): Step<Outcome> {
    match IndexOfTicket(db.tickets, ticketId)
    case None => Step(ServerError, db)
    case Some(i) =>
      if db.tickets[i].user != requester then Step(NotOwner, db)
      else if !isPost then Step(FormPage, db)
      else Step(Saved, DeleteTicketCascade(db, ticketId))
  }

  /** edit_comment: lookup (404), then the owner check, then (on POST) the form saves the body. */
  function EditComment(db: Db, caller: Caller, commentId: nat, isPost: bool, body: string): Step<Outcome> {
    match IndexOfComment(db.comments, commentId)
    case None => Step(NotFound404, db)
    case Some(i) =>
      var c := db.comments[i];
      if caller != Member(c.user) then Step(NotOwner, db)
      else if !isPost then Step(FormPage, db)
      else if !CommentFormValid(body) then Step(InvalidForm, db)
      else Step(Saved, db.(comments := db.comments[i := c.(body := body)]))
  }

  /** delete_comment: lookup (404), then the owner check, then deletion only on POST. */
  function DeleteComment(db: Db, caller: Caller, commentId: nat, isPost: bool): Step<Outcome> {
    match IndexOfComment(db.comments, commentId)
    case None => Step(NotFound404, db)
    case Some(i) =>
      if caller != Member(db.comments[i].user) then Step(NotOwner, db)
      else if !isPost then Step(FormPage, db)
      else Step(Saved, db.(comments := db.comments[..i] + db.comments[i + 1..]))
  }

  /** add_follow: lookup by username, then the self check, then the duplicate check, then creation. */
  function AddFollow(db: Db, requester: UserId, isPost: bool, username: string, newId: nat): Step<AddFollowOutcome> {
    if !isPost then Step(FollowFormPage, db)
    else match FindUserByUsername(db.users, username)
      case None => Step(UserLookupCrash, db)
      case Some(target) =>
        if target.id == requester then Step(SelfFollow, db)
        else if EdgeCount(db.follows, requester, target.id) > 0 then Step(AlreadyFollowing, db)
        else Step(Followed, db.(follows := db.follows + [UserFollows(newId, requester, target.id)]))
  }

  /** remove_follow: deletes the edge with that id only if the requester is its follower. */
  function RemoveFollow(db: Db, requester: UserId, followId: nat): Step<RemoveFollowOutcome> {
    match IndexOfOwnedFollow(db.follows, followId, requester)
    case None => Step(FollowNotFound, db)
    case Some(i) => Step(Unfollowed, db.(follows := db.follows[..i] + db.follows[i + 1..]))
  }

  // ---------------------------------------------------------------------------
  // Tickets

  /** A row with a fresh primary key appended to unique rows keeps them unique. */
  lemma UniqueAppend<T, K>(s: seq<T>, x: T, key: T -> K)
    requires Unique(s, key) && forall y :: y in s ==> key(y) != key(x)
    ensures Unique(s + [x], key)
  {
    assert x !in s;
    assert multiset(s + [x]) == multiset(s) + multiset{x};
  }

  /** add_ticket keeps the store consistent when the new primary key is fresh. */
  lemma AddTicketKeepsValid(db: Db, requester: UserId, isPost: bool, title: string, description: string,
                            newId: TicketId, now: nat)
    requires ValidDb(db) && requester in UserIds(db) && newId !in TicketIds(db)
    ensures ValidDb(AddTicket(db, requester, isPost, title, description, newId, now).db)
  {
    var st := AddTicket(db, requester, isPost, title, description, newId, now);
    if st.outcome == Saved {
      var t := Ticket(newId, title, description, requester, now);
      UniqueAppend(db.tickets, t, TicketPk);
      assert TicketIds(st.db) == TicketIds(db) + {newId};
      assert UserIds(st.db) == UserIds(db);
    }
  }

  /**
    add_ticket saves exactly on a valid POST, and then the one new ticket is
    owned by the requester and no one else's tickets change.
  */
  lemma AddTicketOwnedByRequester(db: Db, requester: UserId, isPost: bool, title: string, description: string,
                                  newId: TicketId, now: nat)
    ensures var st := AddTicket(db, requester, isPost, title, description, newId, now);
      && (st.outcome == Saved <==> isPost && TicketFormValid(title, description))
      && (st.outcome != Saved ==> st.db == db)
      && (st.outcome == Saved ==>
            && TicketIdsOwnedBy(st.db, requester) == TicketIdsOwnedBy(db, requester) + {newId}
            && (forall v :: v != requester ==> TicketIdsOwnedBy(st.db, v) == TicketIdsOwnedBy(db, v))
            && (forall t :: t in st.db.tickets <==>
                  t in db.tickets || t == Ticket(newId, title, description, requester, now))
            && st.db.users == db.users && st.db.reviews == db.reviews
            && st.db.follows == db.follows && st.db.comments == db.comments)
  {
  }

  /** edit_ticket keeps the store consistent: primary keys, owners and foreign keys are untouched. */
  lemma EditTicketKeepsValid(db: Db, requester: UserId, ticketId: TicketId, isPost: bool,
                             title: string, description: string)
    requires ValidDb(db)
    ensures ValidDb(EditTicket(db, requester, ticketId, isPost, title, description).db)
  {
    var st := EditTicket(db, requester, ticketId, isPost, title, description);
    if st.outcome == Saved {
      var i := IndexOfTicket(db.tickets, ticketId).value;
      var t' := db.tickets[i].(title := title, description := description);
      assert st.db.tickets == db.tickets[i := t'];
      UniqueUpdate(db.tickets, i, t', TicketPk);
      assert UserIds(st.db) == UserIds(db);
      assert TicketIds(st.db) == TicketIds(db) by {
        forall u | u in st.db.tickets
          ensures u.id in TicketIds(db)
        {
          InUpdate(db.tickets, i, t', u);
        }
        forall id | id in TicketIds(db)
          ensures id in TicketIds(st.db)
        {
          var u :| u in db.tickets && u.id == id;
          var k :| 0 <= k < |db.tickets| && db.tickets[k] == u;
          assert st.db.tickets[k].id == id;
        }
      }
      forall u | u in st.db.tickets
        ensures ValidTicket(u) && u.user in UserIds(db)
      {
        InUpdate(db.tickets, i, t', u);
      }
    }
  }

  /**
    edit_ticket never changes which tickets exist, who owns them or when they
    were created, and changes no ticket but `ticketId`; a caller that does not
    own the ticket changes nothing; the owner's valid POST sets exactly the
    title and the description.
  */
  lemma EditTicketChangesOnlyTitleAndDescription(db: Db, requester: UserId, ticketId: TicketId, isPost: bool,
                                                 title: string, description: string)
    requires ValidDb(db)
    ensures var st := EditTicket(db, requester, ticketId, isPost, title, description);
      && st.db.users == db.users && st.db.reviews == db.reviews
      && st.db.follows == db.follows && st.db.comments == db.comments
      && |st.db.tickets| == |db.tickets|
      && (forall k :: 0 <= k < |db.tickets| ==>
            && st.db.tickets[k].(title := db.tickets[k].title, description := db.tickets[k].description) == db.tickets[k]
            && (db.tickets[k].id != ticketId ==> st.db.tickets[k] == db.tickets[k])
            && (db.tickets[k].id == ticketId && st.outcome == Saved ==>
                  st.db.tickets[k].title == title && st.db.tickets[k].description == description))
      && (st.outcome != Saved ==> st.db == db)
      && (ticketId !in TicketIds(db) ==> st == Step(ServerError, db))
      && (forall t :: t in db.tickets && t.id == ticketId && t.user != requester ==> st == Step(NotOwner, db))
      && (st.outcome == Saved <==>
            ticketId in TicketIdsOwnedBy(db, requester) && isPost && TicketFormValid(title, description))
  {
    match IndexOfTicket(db.tickets, ticketId)
    case None =>
    case Some(i) =>
      var t := db.tickets[i];
      assert forall u :: u in db.tickets && u.id == ticketId ==> TicketPk(u) == TicketPk(t);
      KeyAtOnePosition(db.tickets, i, TicketPk);
  }

  /** delete_ticket keeps the store consistent. */
  lemma DeleteTicketKeepsValid(db: Db, requester: UserId, ticketId: TicketId, isPost: bool)
    requires ValidDb(db)
    ensures ValidDb(DeleteTicket(db, requester, ticketId, isPost).db)
  {
    DeleteTicketCascadeKeepsValid(db, ticketId);
  }

  /**
    delete_ticket: a caller that does not own the ticket changes nothing; the
    owner's GET only shows the confirmation page; the owner's POST removes the
    ticket and every review and comment on it, and nothing else.
  */
  lemma DeleteTicketOnlyByOwnerOnPost(db: Db, requester: UserId, ticketId: TicketId, isPost: bool)
    requires ValidDb(db)
    ensures var st := DeleteTicket(db, requester, ticketId, isPost);
      && (ticketId !in TicketIds(db) ==> st == Step(ServerError, db))
      && (forall t :: t in db.tickets && t.id == ticketId && t.user != requester ==> st == Step(NotOwner, db))
      && (ticketId in TicketIdsOwnedBy(db, requester) && !isPost ==> st == Step(FormPage, db))
      && (st.outcome == Saved <==> ticketId in TicketIdsOwnedBy(db, requester) && isPost)
      && (st.outcome == Saved ==>
            && (forall t :: t in st.db.tickets <==> t in db.tickets && t.id != ticketId)
            && (forall r :: r in st.db.reviews <==> r in db.reviews && r.ticket != ticketId)
            && (forall c :: c in st.db.comments <==> c in db.comments && c.ticket != ticketId)
            && st.db.users == db.users && st.db.follows == db.follows)
  {
    match IndexOfTicket(db.tickets, ticketId)
    case None =>
    case Some(i) =>
      assert forall u :: u in db.tickets && u.id == ticketId ==> TicketPk(u) == TicketPk(db.tickets[i]);
  }

  // ---------------------------------------------------------------------------
  // Comments

  /** edit_comment keeps the store consistent. */
  lemma EditCommentKeepsValid(db: Db, caller: Caller, commentId: nat, isPost: bool, body: string)
    requires ValidDb(db)
    ensures ValidDb(EditComment(db, caller, commentId, isPost, body).db)
  {
    var st := EditComment(db, caller, commentId, isPost, body);
    if st.outcome == Saved {
      var i := IndexOfComment(db.comments, commentId).value;
      var c' := db.comments[i].(body := body);
      assert st.db.comments == db.comments[i := c'];
      UniqueUpdate(db.comments, i, c', CommentPk);
      assert UserIds(st.db) == UserIds(db);
      assert TicketIds(st.db) == TicketIds(db);
      forall u | u in st.db.comments
        ensures ValidComment(u) && u.user in UserIds(db) && u.ticket in TicketIds(db)
      {
        InUpdate(db.comments, i, c', u);
      }
    }
  }

  /**
    edit_comment: a caller that does not own the comment (anonymous callers
    included) changes nothing; otherwise only the body of that one comment
    can change, on the owner's valid POST.
  */
  lemma EditCommentChangesOnlyBody(db: Db, caller: Caller, commentId: nat, isPost: bool, body: string)
    requires ValidDb(db)
    ensures var st := EditComment(db, caller, commentId, isPost, body);
      && st.db.users == db.users && st.db.tickets == db.tickets
      && st.db.reviews == db.reviews && st.db.follows == db.follows
      && |st.db.comments| == |db.comments|
      && (forall k :: 0 <= k < |db.comments| ==>
            && st.db.comments[k].(body := db.comments[k].body) == db.comments[k]
            && (db.comments[k].id != commentId ==> st.db.comments[k] == db.comments[k])
            && (db.comments[k].id == commentId && st.outcome == Saved ==> st.db.comments[k].body == body))
      && (st.outcome != Saved ==> st.db == db)
      && ((forall c :: c in db.comments ==> c.id != commentId) ==> st == Step(NotFound404, db))
      && (forall c :: c in db.comments && c.id == commentId && caller != Member(c.user) ==> st == Step(NotOwner, db))
      && (caller.Anonymous? ==> st.db == db)
      && (st.outcome == Saved <==>
            (exists c :: c in db.comments && c.id == commentId && caller == Member(c.user))
            && isPost && CommentFormValid(body))
  {
    match IndexOfComment(db.comments, commentId)
    case None =>
    case Some(i) =>
      var c := db.comments[i];
      assert forall u :: u in db.comments && u.id == commentId ==> CommentPk(u) == CommentPk(c);
      KeyAtOnePosition(db.comments, i, CommentPk);
  }

  /** Removing the row at position `i` of unique rows removes exactly that row. */
  lemma RemoveAt<T, K>(s: seq<T>, i: nat, key: T -> K)
    requires Unique(s, key) && i < |s|
    ensures Unique(s[..i] + s[i + 1..], key)
    ensures multiset(s[..i] + s[i + 1..]) <= multiset(s)
    ensures forall y :: y in s[..i] + s[i + 1..] <==> y in s && y != s[i]
  {
    var r := s[..i] + s[i + 1..];
    assert s == s[..i] + [s[i]] + s[i + 1..];
    assert multiset(r) == multiset(s) - multiset{s[i]};
    UniqueSubMultiset(r, s, key);
    forall y
      ensures y in r <==> y in s && y != s[i]
    {
      assert y in r <==> multiset(r)[y] > 0;
    }
  }

  /** delete_comment keeps the store consistent. */
  lemma DeleteCommentKeepsValid(db: Db, caller: Caller, commentId: nat, isPost: bool)
    requires ValidDb(db)
    ensures ValidDb(DeleteComment(db, caller, commentId, isPost).db)
  {
    var st := DeleteComment(db, caller, commentId, isPost);
    if st.outcome == Saved {
      var i := IndexOfComment(db.comments, commentId).value;
      var rest := db.comments[..i] + db.comments[i + 1..];
      RemoveAt(db.comments, i, CommentPk);
      CommentsKept(rest, db.comments, UserIds(db), TicketIds(db), UserIds(db), TicketIds(db));
      assert st.db == db.(comments := rest);
      assert UserIds(st.db) == UserIds(db);
      assert TicketIds(st.db) == TicketIds(db);
    }
  }

  /**
    delete_comment: a caller that does not own the comment changes nothing;
    the owner's GET only shows the confirmation page; the owner's POST removes
    that one comment and nothing else.
  */
  lemma DeleteCommentOnlyByOwnerOnPost(db: Db, caller: Caller, commentId: nat, isPost: bool)
    requires ValidDb(db)
    ensures var st := DeleteComment(db, caller, commentId, isPost);
      && st.db.users == db.users && st.db.tickets == db.tickets
      && st.db.reviews == db.reviews && st.db.follows == db.follows
      && ((forall c :: c in db.comments ==> c.id != commentId) ==> st == Step(NotFound404, db))
      && (forall c :: c in db.comments && c.id == commentId && caller != Member(c.user) ==> st == Step(NotOwner, db))
      && (forall c :: c in db.comments && c.id == commentId && caller == Member(c.user) ==>
            && (!isPost ==> st == Step(FormPage, db))
            && (isPost ==> st.outcome == Saved)
            && (isPost ==> forall d :: d in st.db.comments <==> d in db.comments && d != c))
  {
    match IndexOfComment(db.comments, commentId)
    case None =>
    case Some(i) =>
      var c := db.comments[i];
      assert forall u :: u in db.comments && u.id == commentId ==> CommentPk(u) == CommentPk(c);
      RemoveAt(db.comments, i, CommentPk);
  }

  // ---------------------------------------------------------------------------
  // Follow edges

  /**
    The decision chain of add_follow on a POST: an unknown username creates
    nothing, following oneself creates nothing, an existing edge is left as
    it is, and otherwise exactly the one edge (requester, target) is added.
    A GET changes nothing either.
  */
  lemma AddFollowOutcomes(db: Db, requester: UserId, isPost: bool, username: string, newId: nat)
    requires ValidDb(db)
    ensures var st := AddFollow(db, requester, isPost, username, newId);
      && (!isPost ==> st == Step(FollowFormPage, db))
      && (isPost && (forall u :: u in db.users ==> u.username != username) ==> st == Step(UserLookupCrash, db))
      && (forall u :: isPost && u in db.users && u.username == username ==>
            && (u.id == requester ==> st == Step(SelfFollow, db))
            && (u.id != requester && (exists f :: f in db.follows && f.user == requester && f.followedUser == u.id) ==>
                  st == Step(AlreadyFollowing, db))
            && (u.id != requester && !(exists f :: f in db.follows && f.user == requester && f.followedUser == u.id) ==>
                  st == Step(Followed, db.(follows := db.follows + [UserFollows(newId, requester, u.id)]))))
  {
    if isPost {
      match FindUserByUsername(db.users, username)
      case None =>
      case Some(target) =>
        assert forall u :: u in db.users && u.username == username ==> UserUsername(u) == UserUsername(target);
        EdgeCountPositive(db.follows, requester, target.id);
    }
  }

  /** add_follow keeps the store consistent, in particular one edge per ordered pair, given a fresh edge id. */
  lemma AddFollowKeepsValid(db: Db, requester: UserId, isPost: bool, username: string, newId: nat)
    requires ValidDb(db) && requester in UserIds(db)
    requires forall f :: f in db.follows ==> f.id != newId
    ensures ValidDb(AddFollow(db, requester, isPost, username, newId).db)
  {
    var st := AddFollow(db, requester, isPost, username, newId);
    if st.outcome == Followed {
      var target := FindUserByUsername(db.users, username).value;
      var e := UserFollows(newId, requester, target.id);
      assert st.db.follows == db.follows + [e];
      EdgeCountPositive(db.follows, requester, target.id);
      UniqueAppend(db.follows, e, FollowPk);
      UniqueAppend(db.follows, e, FollowPair);
      assert UserIds(st.db) == UserIds(db);
      assert TicketIds(st.db) == TicketIds(db);
      assert target.id in UserIds(db);
    }
  }

  /**
    Following the same user twice: the second call reports AlreadyFollowing,
    and exactly one edge (requester, target) exists afterwards.
  */
  lemma AddFollowTwiceLeavesOneEdge(db: Db, requester: UserId, username: string, id1: nat, id2: nat)
    requires ValidDb(db) && requester in UserIds(db)
    requires forall f :: f in db.follows ==> f.id != id1
    requires exists u :: u in db.users && u.username == username && u.id != requester
    ensures var first := AddFollow(db, requester, true, username, id1);
      var second := AddFollow(first.db, requester, true, username, id2);
      var target := FindUserByUsername(db.users, username).value;
      && second.outcome == AlreadyFollowing
      && second.db == first.db
      && EdgeCount(second.db.follows, requester, target.id) == 1
  {
    var first := AddFollow(db, requester, true, username, id1);
    var target := FindUserByUsername(db.users, username).value;
    assert target.id != requester by {
      var u :| u in db.users && u.username == username && u.id != requester;
      assert UserUsername(u) == UserUsername(target);
    }
    AddFollowKeepsValid(db, requester, true, username, id1);
    if first.outcome == Followed {
      EdgeCountAppend(db.follows, UserFollows(id1, requester, target.id), requester, target.id);
    } else {
      assert first.outcome == AlreadyFollowing;
    }
    EdgeCountAtMostOne(first.db.follows, requester, target.id);
  }

  /** remove_follow keeps the store consistent. */
  lemma RemoveFollowKeepsValid(db: Db, requester: UserId, followId: nat)
    requires ValidDb(db)
    ensures ValidDb(RemoveFollow(db, requester, followId).db)
  {
    var st := RemoveFollow(db, requester, followId);
    if st.outcome == Unfollowed {
      var i := IndexOfOwnedFollow(db.follows, followId, requester).value;
      RemoveAt(db.follows, i, FollowPk);
      RemoveAt(db.follows, i, FollowPair);
      assert UserIds(st.db) == UserIds(db);
    }
  }

  /**
    remove_follow removes the edge `followId` only when the requester is its
    follower; an edge of someone else and a missing id take the same path and
    change nothing.
  */
  lemma RemoveFollowOnlyOwnEdge(db: Db, requester: UserId, followId: nat)
    requires ValidDb(db)
    ensures var st := RemoveFollow(db, requester, followId);
      && st.db.users == db.users && st.db.tickets == db.tickets
      && st.db.reviews == db.reviews && st.db.comments == db.comments
      && ((forall f :: f in db.follows ==> f.id != followId || f.user != requester) ==> st == Step(FollowNotFound, db))
      && (forall f :: f in db.follows && f.id == followId && f.user == requester ==>
            && st.outcome == Unfollowed
            && (forall g :: g in st.db.follows <==> g in db.follows && g != f))
  {
    match IndexOfOwnedFollow(db.follows, followId, requester)
    case None =>
    case Some(i) =>
      var f := db.follows[i];
      assert forall g :: g in db.follows && g.id == followId ==> FollowPk(g) == FollowPk(f);
      RemoveAt(db.follows, i, FollowPk);
  }
}
