/**
  The records of the review site (reviews/models.py) as values: users, tickets
  (requests for a review), reviews, follow edges and comments, the field limits
  the model declares, the uniqueness and foreign-key rules a consistent store
  keeps, and the cascade deletions the foreign keys trigger.
*/
module Models {

  datatype Option<+T> = None | Some(value: T)

  type UserId = nat
  type TicketId = nat

  // Field limits declared on the models.
  const TitleMaxLength: nat := 128
  const DescriptionMaxLength: nat := 2048
  const HeadlineMaxLength: nat := 128
  const ReviewBodyMaxLength: nat := 8192
  const CommentBodyMaxLength: nat := 2048
  const RatingMin: int := 0
  const RatingMax: int := 5

  /** The one-letter codes accepted by the gender choice field. */
  const GenderChoices: set<char> := {'M', 'F', 'O'}

  /** A registered user; the birth date is a day number and both it and the gender may be absent. */
  datatype User = User(id: UserId, username: string, email: string, birthDate: Option<nat>, gender: Option<char>)

  /** A request for a review, owned by `user`. */
  datatype Ticket = Ticket(id: TicketId, title: string, description: string, user: UserId, timeCreated: nat)

  /** A rated answer to the ticket `ticket`, written by `user`. */
  datatype Review = Review(id: nat, ticket: TicketId, rating: int, headline: string, body: string, user: UserId, timeCreated: nat)

  /** A follow edge: `user` follows `followedUser`. */
  datatype UserFollows = UserFollows(id: nat, user: UserId, followedUser: UserId)

  /** A comment by `user` on the ticket `ticket`. */
  datatype Comment = Comment(id: nat, body: string, user: UserId, ticket: TicketId, timeCreated: nat)

  /** One snapshot of the five tables; the order of each sequence is the table's row order. */
  datatype Db = Db(users: seq<User>, tickets: seq<Ticket>, reviews: seq<Review>, follows: seq<UserFollows>, comments: seq<Comment>)

  // ---------------------------------------------------------------------------
  // Field constraints

  predicate ValidUser(u: User) {
    u.gender.None? || u.gender.value in GenderChoices
  }

  predicate ValidTicket(t: Ticket) {
    |t.title| <= TitleMaxLength && |t.description| <= DescriptionMaxLength
  }

  predicate ValidReview(r: Review) {
    && RatingMin <= r.rating <= RatingMax
    && |r.headline| <= HeadlineMaxLength
    && |r.body| <= ReviewBodyMaxLength
  }

  predicate ValidComment(c: Comment) {
    |c.body| <= CommentBodyMaxLength
  }

  // ---------------------------------------------------------------------------
  // Uniqueness

  /**
    No row occurs twice and no two different rows share a key: the rows of `s`
    are told apart by `key`, as a primary key or a unique constraint demands.
  */
  predicate Unique<T(==), K(==)>(s: seq<T>, key: T -> K) {
    && (forall x :: x in s ==> multiset(s)[x] == 1)
    && (forall x, y :: x in s && y in s && key(x) == key(y) ==> x == y)
  }

  function UserPk(u: User): UserId { u.id }
  function UserUsername(u: User): string { u.username }
  function UserEmail(u: User): string { u.email }
  function TicketPk(t: Ticket): TicketId { t.id }
  function ReviewPk(r: Review): nat { r.id }
  function FollowPk(f: UserFollows): nat { f.id }
  function FollowPair(f: UserFollows): (UserId, UserId) { (f.user, f.followedUser) }
  function CommentPk(c: Comment): nat { c.id }

  /** Keeping only some rows (each at most as often as before) keeps them unique. */
  lemma UniqueSubMultiset<T, K>(r: seq<T>, s: seq<T>, key: T -> K)
    requires Unique(s, key)
    requires multiset(r) <= multiset(s)
    ensures Unique(r, key)
  {
    forall x | x in r
      ensures multiset(r)[x] == 1
    {
      assert x in multiset(r);
    }
  }

  // ---------------------------------------------------------------------------
  // Keys present in the store

  function UserIds(db: Db): set<UserId> {
    set u | u in db.users :: u.id
  }

  function TicketIds(db: Db): set<TicketId> {
    set t | t in db.tickets :: t.id
  }

  /** The ids of the tickets owned by `uid`. */
  function TicketIdsOwnedBy(db: Db, uid: UserId): set<TicketId> {
    set t | t in db.tickets && t.user == uid :: t.id
  }

  predicate UsersValid(users: seq<User>) {
    && (forall u :: u in users ==> ValidUser(u))
    && Unique(users, UserPk)
    && Unique(users, UserUsername)
    && Unique(users, UserEmail)
  }

  predicate TicketsValid(tickets: seq<Ticket>, userIds: set<UserId>) {
    && (forall t :: t in tickets ==> ValidTicket(t) && t.user in userIds)
    && Unique(tickets, TicketPk)
  }

  predicate ReviewsValid(reviews: seq<Review>, userIds: set<UserId>, ticketIds: set<TicketId>) {
    && (forall r :: r in reviews ==> ValidReview(r) && r.user in userIds && r.ticket in ticketIds)
    && Unique(reviews, ReviewPk)
  }

  /** Follow edges join existing users, one edge per ordered pair; a self-follow is not excluded here. */
  predicate FollowsValid(follows: seq<UserFollows>, userIds: set<UserId>) {
    && (forall f :: f in follows ==> f.user in userIds && f.followedUser in userIds)
    && Unique(follows, FollowPk)
    && Unique(follows, FollowPair)
  }

  predicate CommentsValid(comments: seq<Comment>, userIds: set<UserId>, ticketIds: set<TicketId>) {
    && (forall c :: c in comments ==> ValidComment(c) && c.user in userIds && c.ticket in ticketIds)
    && Unique(comments, CommentPk)
  }

  /**
    A consistent store: every row meets its field constraints, primary keys,
    usernames, e-mails and (follower, followed) pairs are unique, and every
    foreign key refers to an existing row.
  */
  predicate ValidDb(db: Db) {
    && UsersValid(db.users)
    && TicketsValid(db.tickets, UserIds(db))
    && ReviewsValid(db.reviews, UserIds(db), TicketIds(db))
    && FollowsValid(db.follows, UserIds(db))
    && CommentsValid(db.comments, UserIds(db), TicketIds(db))
  }

  /** Rows kept from a table (each at most as often as before) were rows of it. */
  lemma KeptRows<T>(r: seq<T>, s: seq<T>)
    requires multiset(r) <= multiset(s)
    ensures forall x :: x in r ==> x in s
  {
    forall x | x in r
      ensures x in s
    {
      assert x in multiset(r);
    }
  }

  lemma UsersKept(r: seq<User>, s: seq<User>)
    requires UsersValid(s) && multiset(r) <= multiset(s)
    ensures UsersValid(r)
  {
    KeptRows(r, s);
    UniqueSubMultiset(r, s, UserPk);
    UniqueSubMultiset(r, s, UserUsername);
    UniqueSubMultiset(r, s, UserEmail);
  }

  /** Keeping some tickets keeps that table valid as long as their owners are still there. */
  lemma TicketsKept(r: seq<Ticket>, s: seq<Ticket>, userIds: set<UserId>, userIds': set<UserId>)
    requires TicketsValid(s, userIds) && multiset(r) <= multiset(s)
    requires forall t :: t in r ==> t.user in userIds'
    ensures TicketsValid(r, userIds')
  {
    KeptRows(r, s);
    UniqueSubMultiset(r, s, TicketPk);
  }

  lemma ReviewsKept(r: seq<Review>, s: seq<Review>, userIds: set<UserId>, ticketIds: set<TicketId>,
                    userIds': set<UserId>, ticketIds': set<TicketId>)
    requires ReviewsValid(s, userIds, ticketIds) && multiset(r) <= multiset(s)
    requires forall x :: x in r ==> x.user in userIds' && x.ticket in ticketIds'
    ensures ReviewsValid(r, userIds', ticketIds')
  {
    KeptRows(r, s);
    UniqueSubMultiset(r, s, ReviewPk);
  }

  lemma FollowsKept(r: seq<UserFollows>, s: seq<UserFollows>, userIds: set<UserId>, userIds': set<UserId>)
    requires FollowsValid(s, userIds) && multiset(r) <= multiset(s)
    requires forall f :: f in r ==> f.user in userIds' && f.followedUser in userIds'
    ensures FollowsValid(r, userIds')
  {
    KeptRows(r, s);
    UniqueSubMultiset(r, s, FollowPk);
    UniqueSubMultiset(r, s, FollowPair);
  }

  lemma CommentsKept(r: seq<Comment>, s: seq<Comment>, userIds: set<UserId>, ticketIds: set<TicketId>,
                     userIds': set<UserId>, ticketIds': set<TicketId>)
    requires CommentsValid(s, userIds, ticketIds) && multiset(r) <= multiset(s)
    requires forall x :: x in r ==> x.user in userIds' && x.ticket in ticketIds'
    ensures CommentsValid(r, userIds', ticketIds')
  {
    KeptRows(r, s);
    UniqueSubMultiset(r, s, CommentPk);
  }

  // ---------------------------------------------------------------------------
  // Cascade deletion

  /** The rows of `s` that satisfy `p`, in their order. */
  function Filter<T(==,!new)>(s: seq<T>, p: T -> bool): (r: seq<T>)
    ensures multiset(r) <= multiset(s)
    ensures forall x :: x in r <==> x in s && p(x)
  {
    if s == [] then []
    else
      assert s == [s[0]] + s[1..];
      (if p(s[0]) then [s[0]] else []) + Filter(s[1..], p)
  }

  /**
    Deleting the ticket `tid`: the reviews and comments that refer to it go
    with it; users and follow edges are untouched.
  */
  function DeleteTicketCascade(db: Db, tid: TicketId): (d: Db)
    ensures d.users == db.users && d.follows == db.follows
    ensures multiset(d.tickets) <= multiset(db.tickets)
    ensures multiset(d.reviews) <= multiset(db.reviews)
    ensures multiset(d.comments) <= multiset(db.comments)
    ensures forall t :: t in d.tickets <==> t in db.tickets && t.id != tid
    ensures forall r :: r in d.reviews <==> r in db.reviews && r.ticket != tid
    ensures forall c :: c in d.comments <==> c in db.comments && c.ticket != tid
  {
    db.(tickets := Filter(db.tickets, (t: Ticket) => t.id != tid),
        reviews := Filter(db.reviews, (r: Review) => r.ticket != tid),
        comments := Filter(db.comments, (c: Comment) => c.ticket != tid))
  }

  lemma TicketIdsAfterTicketDelete(db: Db, tid: TicketId)
    ensures TicketIds(DeleteTicketCascade(db, tid)) == TicketIds(db) - {tid}
  {
    var d := DeleteTicketCascade(db, tid);
    forall id | id in TicketIds(db) - {tid}
      ensures id in TicketIds(d)
    {
      var t :| t in db.tickets && t.id == id;
      assert t in d.tickets;
    }
  }

  lemma DeleteTicketCascadeKeepsValid(db: Db, tid: TicketId)
    requires ValidDb(db)
    ensures ValidDb(DeleteTicketCascade(db, tid))
    ensures tid !in TicketIds(DeleteTicketCascade(db, tid))
    ensures TicketIds(DeleteTicketCascade(db, tid)) == TicketIds(db) - {tid}
  {
    var d := DeleteTicketCascade(db, tid);
    assert UserIds(d) == UserIds(db);
    TicketIdsAfterTicketDelete(db, tid);
    TicketsKept(d.tickets, db.tickets, UserIds(db), UserIds(d));
    ReviewsKept(d.reviews, db.reviews, UserIds(db), TicketIds(db), UserIds(d), TicketIds(d));
    CommentsKept(d.comments, db.comments, UserIds(db), TicketIds(db), UserIds(d), TicketIds(d));
  }

  /**
    Deleting the user `uid`: their tickets (and with them every review and
    comment on those tickets), their own reviews and comments, and every
    follow edge in which they are the follower or the followed user.
  */
  function DeleteUserCascade(db: Db, uid: UserId): (d: Db)
    ensures multiset(d.users) <= multiset(db.users) && multiset(d.tickets) <= multiset(db.tickets)
    ensures multiset(d.reviews) <= multiset(db.reviews) && multiset(d.follows) <= multiset(db.follows)
    ensures multiset(d.comments) <= multiset(db.comments)
    ensures forall u :: u in d.users <==> u in db.users && u.id != uid
    ensures forall t :: t in d.tickets <==> t in db.tickets && t.user != uid
    ensures forall r :: r in d.reviews <==>
      r in db.reviews && r.user != uid && r.ticket !in TicketIdsOwnedBy(db, uid)
    ensures forall f :: f in d.follows <==>
      f in db.follows && f.user != uid && f.followedUser != uid
    ensures forall c :: c in d.comments <==>
      c in db.comments && c.user != uid && c.ticket !in TicketIdsOwnedBy(db, uid)
  {
    var owned := TicketIdsOwnedBy(db, uid);
    Db(Filter(db.users, (u: User) => u.id != uid),
       Filter(db.tickets, (t: Ticket) => t.user != uid),
       Filter(db.reviews, (r: Review) => r.user != uid && r.ticket !in owned),
       Filter(db.follows, (f: UserFollows) => f.user != uid && f.followedUser != uid),
       Filter(db.comments, (c: Comment) => c.user != uid && c.ticket !in owned))
  }

  lemma UserIdsAfterUserDelete(db: Db, uid: UserId)
    ensures UserIds(DeleteUserCascade(db, uid)) == UserIds(db) - {uid}
  {
    var d := DeleteUserCascade(db, uid);
    forall id | id in UserIds(db) - {uid}
      ensures id in UserIds(d)
    {
      var u :| u in db.users && u.id == id;
      assert u in d.users;
    }
  }

  lemma TicketIdsAfterUserDelete(db: Db, uid: UserId)
    ensures TicketIds(db) - TicketIdsOwnedBy(db, uid) <= TicketIds(DeleteUserCascade(db, uid))
  {
    var d := DeleteUserCascade(db, uid);
    forall id | id in TicketIds(db) - TicketIdsOwnedBy(db, uid)
      ensures id in TicketIds(d)
    {
      var t :| t in db.tickets && t.id == id;
      assert t.user != uid;
      assert t in d.tickets;
    }
  }

  /**
    After deleting a user from a consistent store the store is still
    consistent and nothing in it refers to that user or to their tickets.
  */
  lemma DeleteUserCascadeKeepsValid(db: Db, uid: UserId)
    requires ValidDb(db)
    ensures var d := DeleteUserCascade(db, uid);
      && ValidDb(d)
      && uid !in UserIds(d)
      && TicketIdsOwnedBy(d, uid) == {}
      && (forall r :: r in d.reviews ==> r.user != uid && r.ticket !in TicketIdsOwnedBy(db, uid))
      && (forall f :: f in d.follows ==> f.user != uid && f.followedUser != uid)
      && (forall c :: c in d.comments ==> c.user != uid && c.ticket !in TicketIdsOwnedBy(db, uid))
  {
    var d := DeleteUserCascade(db, uid);
    UserIdsAfterUserDelete(db, uid);
    TicketIdsAfterUserDelete(db, uid);
    UsersKept(d.users, db.users);
    TicketsKept(d.tickets, db.tickets, UserIds(db), UserIds(d));
    ReviewsKept(d.reviews, db.reviews, UserIds(db), TicketIds(db), UserIds(d), TicketIds(d));
    FollowsKept(d.follows, db.follows, UserIds(db), UserIds(d));
    CommentsKept(d.comments, db.comments, UserIds(db), TicketIds(db), UserIds(d), TicketIds(d));
  }
}
