/**
  The feed of reviews/views.py: the tickets and reviews a user sees, chained
  from three queries without removing duplicates and sorted newest first, and
  the two older helpers that compute the viewable tickets and reviews as sets.
*/
module Feed {
  import opened Models

  /** One post of the feed, tagged with the content type the template selects on. */
  datatype FeedItem = TicketPost(ticket: Ticket) | ReviewPost(review: Review) {
    function ContentType(): string {
      if TicketPost? then "TICKET" else "REVIEW"
    }

    function TimeCreated(): nat {
      if TicketPost? then ticket.timeCreated else review.timeCreated
    }
  }

  /** The users that `u` follows (a follow edge may point back at `u`). */
  function FollowedUsers(db: Db, u: UserId): set<UserId> {
    set f | f in db.follows && f.user == u :: f.followedUser
  }

  /** The authors whose posts `u` sees: `u` and everyone `u` follows. */
  function Authors(db: Db, u: UserId): set<UserId> {
    {u} + FollowedUsers(db, u)
  }

  // ---------------------------------------------------------------------------
  // The three queries, each in table order

  /** The tickets of `ts` written by one of `authors`, as ticket posts. */
  function TicketPosts(ts: seq<Ticket>, authors: set<UserId>): (r: seq<FeedItem>)
    ensures forall x ::
      multiset(r)[x] == if x.TicketPost? && x.ticket.user in authors then multiset(ts)[x.ticket] else 0
  {
    if ts == [] then []
    else
      assert ts == [ts[0]] + ts[1..];
      (if ts[0].user in authors then [TicketPost(ts[0])] else []) + TicketPosts(ts[1..], authors)
  }

  /** The reviews of `rs` written by one of `authors`, as review posts. */
  function ReviewPosts(rs: seq<Review>, authors: set<UserId>): (r: seq<FeedItem>)
    ensures forall x ::
      multiset(r)[x] == if x.ReviewPost? && x.review.user in authors then multiset(rs)[x.review] else 0
  {
    if rs == [] then []
    else
      assert rs == [rs[0]] + rs[1..];
      (if rs[0].user in authors then [ReviewPost(rs[0])] else []) + ReviewPosts(rs[1..], authors)
  }

  /** The reviews of `rs`, by anyone, on one of the tickets `ticketIds`, as review posts. */
  function ReviewsOnTickets(rs: seq<Review>, ticketIds: set<TicketId>): (r: seq<FeedItem>)
    ensures forall x ::
      multiset(r)[x] == if x.ReviewPost? && x.review.ticket in ticketIds then multiset(rs)[x.review] else 0
  {
    if rs == [] then []
    else
      assert rs == [rs[0]] + rs[1..];
      (if rs[0].ticket in ticketIds then [ReviewPost(rs[0])] else []) + ReviewsOnTickets(rs[1..], ticketIds)
  }

  /** The chained queries: own and followed tickets, own and followed reviews, reviews on own tickets. */
  function Chain(db: Db, u: UserId): seq<FeedItem> {
    TicketPosts(db.tickets, Authors(db, u))
      + ReviewPosts(db.reviews, Authors(db, u))
      + ReviewsOnTickets(db.reviews, TicketIdsOwnedBy(db, u))
  }

  // ---------------------------------------------------------------------------
  // Sorting by creation time, most recent first, keeping the order of ties

  predicate NewestFirst(s: seq<FeedItem>) {
    forall i, j :: 0 <= i < j < |s| ==> s[i].TimeCreated() >= s[j].TimeCreated()
  }

  /** Places `x` before the first item that is not more recent than it. */
  function Insert(x: FeedItem, s: seq<FeedItem>): seq<FeedItem> {
    if s == [] then [x]
    else if x.TimeCreated() >= s[0].TimeCreated() then [x] + s
    else [s[0]] + Insert(x, s[1..])
  }

  /** A stable sort on creation time in decreasing order. */
  function SortNewestFirst(s: seq<FeedItem>): seq<FeedItem> {
    if s == [] then [] else Insert(s[0], SortNewestFirst(s[1..]))
  }

  /** The posts created at time `t`, in order. */
  function CreatedAt(s: seq<FeedItem>, t: nat): seq<FeedItem> {
    if s == [] then []
    else (if s[0].TimeCreated() == t then [s[0]] else []) + CreatedAt(s[1..], t)
  }

  /** The feed of `u`. */
  function Feed(db: Db, u: UserId): seq<FeedItem> {
    SortNewestFirst(Chain(db, u))
  }

  // ---------------------------------------------------------------------------
  // The sort

  lemma {:induction false} InsertPermutation(x: FeedItem, s: seq<FeedItem>)
    ensures multiset(Insert(x, s)) == multiset(s) + multiset{x}
  {
    if s != [] && x.TimeCreated() < s[0].TimeCreated() {
      InsertPermutation(x, s[1..]);
      assert s == [s[0]] + s[1..];
    }
  }

  lemma {:induction false} InsertNewestFirst(x: FeedItem, s: seq<FeedItem>)
    requires NewestFirst(s)
    ensures NewestFirst(Insert(x, s))
  {
    if s != [] && x.TimeCreated() < s[0].TimeCreated() {
      var rest := Insert(x, s[1..]);
      InsertNewestFirst(x, s[1..]);
      InsertPermutation(x, s[1..]);
      forall k | 0 <= k < |rest|
        ensures s[0].TimeCreated() >= rest[k].TimeCreated()
      {
        assert rest[k] in multiset(rest);
        assert rest[k] == x || rest[k] in s[1..];
      }
    }
  }

  /** The sort returns its input rearranged, newest first. */
  lemma {:induction false} SortPermutationNewestFirst(s: seq<FeedItem>)
    ensures multiset(SortNewestFirst(s)) == multiset(s)
    ensures NewestFirst(SortNewestFirst(s))
  {
    if s != [] {
      SortPermutationNewestFirst(s[1..]);
      InsertPermutation(s[0], SortNewestFirst(s[1..]));
      InsertNewestFirst(s[0], SortNewestFirst(s[1..]));
      assert s == [s[0]] + s[1..];
    }
  }

  lemma {:induction false} CreatedAtInsert(x: FeedItem, s: seq<FeedItem>, t: nat)
    ensures CreatedAt(Insert(x, s), t) ==
      (if x.TimeCreated() == t then [x] else []) + CreatedAt(s, t)
  {
    if s == [] {
    } else if x.TimeCreated() >= s[0].TimeCreated() {
      assert ([x] + s)[1..] == s;
    } else {
      CreatedAtInsert(x, s[1..], t);
      assert ([s[0]] + Insert(x, s[1..]))[1..] == Insert(x, s[1..]);
    }
  }

  /** Stability: the posts sharing one creation time keep their relative order. */
  lemma {:induction false} SortKeepsTieOrder(s: seq<FeedItem>, t: nat)
    ensures CreatedAt(SortNewestFirst(s), t) == CreatedAt(s, t)
  {
    if s != [] {
      SortKeepsTieOrder(s[1..], t);
      CreatedAtInsert(s[0], SortNewestFirst(s[1..]), t);
    }
  }

  // ---------------------------------------------------------------------------
  // Properties of the feed

  /** The feed is ordered by creation time, most recent first. */
  lemma FeedNewestFirst(db: Db, u: UserId)
    ensures forall i, j :: 0 <= i < j < |Feed(db, u)| ==>
      Feed(db, u)[i].TimeCreated() >= Feed(db, u)[j].TimeCreated()
  {
    SortPermutationNewestFirst(Chain(db, u));
  }

  /** The feed holds exactly the chained query results: nothing added, nothing dropped. */
  lemma FeedIsPermutationOfChain(db: Db, u: UserId)
    ensures multiset(Feed(db, u)) ==
      multiset(TicketPosts(db.tickets, Authors(db, u)))
      + multiset(ReviewPosts(db.reviews, Authors(db, u)))
      + multiset(ReviewsOnTickets(db.reviews, TicketIdsOwnedBy(db, u)))
  {
    SortPermutationNewestFirst(Chain(db, u));
  }

  /** Posts created at the same time appear in the order the chained queries produced them. */
  lemma FeedTiesInChainOrder(db: Db, u: UserId, t: nat)
    ensures CreatedAt(Feed(db, u), t) == CreatedAt(Chain(db, u), t)
  {
    SortKeepsTieOrder(Chain(db, u), t);
  }

  /** How often a ticket appears in the feed: once per row, when its author is `u` or followed by `u`. */
  lemma FeedTicketCount(db: Db, u: UserId, t: Ticket)
    ensures multiset(Feed(db, u))[TicketPost(t)] ==
      if t.user == u || t.user in FollowedUsers(db, u) then multiset(db.tickets)[t] else 0
  {
    var x := TicketPost(t);
    var c1, c2, c3 := TicketPosts(db.tickets, Authors(db, u)), ReviewPosts(db.reviews, Authors(db, u)),
      ReviewsOnTickets(db.reviews, TicketIdsOwnedBy(db, u));
    SortPermutationNewestFirst(Chain(db, u));
    assert multiset(Chain(db, u))[x] == multiset(c1)[x] + multiset(c2)[x] + multiset(c3)[x];
  }

  /**
    How often a review appears in the feed: once if its author is `u` or
    followed by `u`, and once more if it is on a ticket of `u`; no duplicate is
    removed.
  */
  lemma FeedReviewCount(db: Db, u: UserId, r: Review)
    ensures multiset(Feed(db, u))[ReviewPost(r)] ==
      multiset(db.reviews)[r] * (
        (if r.user == u || r.user in FollowedUsers(db, u) then 1 else 0)
        + (if r.ticket in TicketIdsOwnedBy(db, u) then 1 else 0))
  {
    var x := ReviewPost(r);
    var c1, c2, c3 := TicketPosts(db.tickets, Authors(db, u)), ReviewPosts(db.reviews, Authors(db, u)),
      ReviewsOnTickets(db.reviews, TicketIdsOwnedBy(db, u));
    SortPermutationNewestFirst(Chain(db, u));
    assert multiset(Chain(db, u))[x] == multiset(c1)[x] + multiset(c2)[x] + multiset(c3)[x];
  }

  /** A ticket is in the feed exactly when it is stored and written by `u` or by a user `u` follows. */
  lemma FeedTicketMembership(db: Db, u: UserId, t: Ticket)
    ensures TicketPost(t) in Feed(db, u) <==>
      t in db.tickets && (t.user == u || exists f :: f in db.follows && f.user == u && f.followedUser == t.user)
  {
    FeedTicketCount(db, u, t);
    assert TicketPost(t) in Feed(db, u) <==> multiset(Feed(db, u))[TicketPost(t)] > 0;
  }

  /**
    A review is in the feed exactly when it is stored and either written by
    `u` or by a user `u` follows, or written (by anyone) on a ticket owned by `u`.
  */
  lemma FeedReviewMembership(db: Db, u: UserId, r: Review)
    ensures ReviewPost(r) in Feed(db, u) <==>
      r in db.reviews && (
        || r.user == u
        || (exists f :: f in db.follows && f.user == u && f.followedUser == r.user)
        || (exists t :: t in db.tickets && t.id == r.ticket && t.user == u))
  {
    FeedReviewCount(db, u, r);
    assert ReviewPost(r) in Feed(db, u) <==> multiset(Feed(db, u))[ReviewPost(r)] > 0;
  }

  /**
    In a consistent store, a review by `u` on a ticket of `u` appears exactly
    twice in `u`'s feed, a review that meets one rule exactly once.
  */
  lemma FeedReviewMultiplicity(db: Db, u: UserId, r: Review)
    requires ValidDb(db) && r in db.reviews
    ensures var both := (r.user == u || r.user in FollowedUsers(db, u)) && r.ticket in TicketIdsOwnedBy(db, u);
      var one := (r.user == u || r.user in FollowedUsers(db, u)) != (r.ticket in TicketIdsOwnedBy(db, u));
      && (both ==> multiset(Feed(db, u))[ReviewPost(r)] == 2)
      && (one ==> multiset(Feed(db, u))[ReviewPost(r)] == 1)
  {
    FeedReviewCount(db, u, r);
    assert multiset(db.reviews)[r] == 1;
  }

  /** In a consistent store no ticket appears twice in a feed. */
  lemma FeedTicketAtMostOnce(db: Db, u: UserId, t: Ticket)
    requires ValidDb(db)
    ensures multiset(Feed(db, u))[TicketPost(t)] <= 1
  {
    FeedTicketCount(db, u, t);
    assert t in db.tickets ==> multiset(db.tickets)[t] == 1;
  }

  // ---------------------------------------------------------------------------
  // The older helpers: the union of two filtered queries, as sets

  /** Tickets by users `u` follows, united with the tickets by `u`. */
  function ViewableTickets(db: Db, u: UserId): set<Ticket> {
    (set t | t in db.tickets && t.user in FollowedUsers(db, u))
      + (set t | t in db.tickets && t.user == u)
  }

  /** Reviews by users `u` follows, united with the reviews by `u`. */
  function ViewableReviews(db: Db, u: UserId): set<Review> {
    (set r | r in db.reviews && r.user in FollowedUsers(db, u))
      + (set r | r in db.reviews && r.user == u)
  }

  /** The viewable tickets are the feed's ticket query taken as a set. */
  lemma ViewableTicketsMatchFeedQuery(db: Db, u: UserId)
    ensures forall t :: t in ViewableTickets(db, u) <==> TicketPost(t) in TicketPosts(db.tickets, Authors(db, u))
  {
    forall t
      ensures t in ViewableTickets(db, u) <==> TicketPost(t) in TicketPosts(db.tickets, Authors(db, u))
    {
      assert TicketPost(t) in TicketPosts(db.tickets, Authors(db, u))
        <==> multiset(TicketPosts(db.tickets, Authors(db, u)))[TicketPost(t)] > 0;
    }
  }

  /** The viewable reviews are the feed's second query taken as a set (reviews on own tickets are not among them). */
  lemma ViewableReviewsMatchFeedQuery(db: Db, u: UserId)
    ensures forall r :: r in ViewableReviews(db, u) <==> ReviewPost(r) in ReviewPosts(db.reviews, Authors(db, u))
  {
    forall r
      ensures r in ViewableReviews(db, u) <==> ReviewPost(r) in ReviewPosts(db.reviews, Authors(db, u))
    {
      assert ReviewPost(r) in ReviewPosts(db.reviews, Authors(db, u))
        <==> multiset(ReviewPosts(db.reviews, Authors(db, u)))[ReviewPost(r)] > 0;
    }
  }

  // ---------------------------------------------------------------------------
  // Two small stores

  const Alice := User(1, "alice", "alice@example.org", None, None)
  const Bob := User(2, "bob", "bob@example.org", None, None)
  const Dune := Ticket(1, "Dune", "", Bob.id, 0)

  /** Alice's ticket "1984", written at `time`. */
  function Nineteen84(time: nat): Ticket {
    Ticket(2, "1984", "", Alice.id, time)
  }

  /** Alice's review of Bob's ticket "Dune", written at `time`. */
  function GreatRead(time: nat): Review {
    Review(1, Dune.id, 5, "Great read", "", Alice.id, time)
  }

  /** Alice reviewed Bob's ticket "Dune" and wrote the ticket "1984"; Alice follows nobody. */
  function AliceStore(reviewTime: nat, ticketTime: nat): Db {
    Db([Alice, Bob], [Dune, Nineteen84(ticketTime)], [GreatRead(reviewTime)], [], [])
  }

  /** Alice sees only Alice's own posts, and owns ticket 2 only. */
  lemma AliceAudience(reviewTime: nat, ticketTime: nat)
    ensures Authors(AliceStore(reviewTime, ticketTime), Alice.id) == {Alice.id}
    ensures TicketIdsOwnedBy(AliceStore(reviewTime, ticketTime), Alice.id) == {2}
  {
    var db := AliceStore(reviewTime, ticketTime);
    assert FollowedUsers(db, 1) == {};
    assert Dune.user != 1;
  }

  lemma AliceTicketQuery(ticketTime: nat)
    ensures TicketPosts([Dune, Nineteen84(ticketTime)], {Alice.id}) == [TicketPost(Nineteen84(ticketTime))]
  {
    var ts := [Dune, Nineteen84(ticketTime)];
    assert ts[1..] == [Nineteen84(ticketTime)];
    assert ts[1..][1..] == [];
  }

  lemma AliceChain(reviewTime: nat, ticketTime: nat)
    ensures Chain(AliceStore(reviewTime, ticketTime), Alice.id)
      == [TicketPost(Nineteen84(ticketTime)), ReviewPost(GreatRead(reviewTime))]
  {
    var rs := [GreatRead(reviewTime)];
    AliceAudience(reviewTime, ticketTime);
    AliceTicketQuery(ticketTime);
    assert rs[1..] == [];
    assert ReviewPosts(rs, {1}) == [ReviewPost(GreatRead(reviewTime))];
    assert ReviewsOnTickets(rs, {2}) == [];
  }

  /**
    When the review is older than the ticket, Alice's feed is Alice's ticket,
    then Alice's review; Bob's ticket is not in it.
  */
  lemma AliceFeedExample(reviewTime: nat, ticketTime: nat)
    requires reviewTime < ticketTime
    ensures Feed(AliceStore(reviewTime, ticketTime), Alice.id)
      == [TicketPost(Nineteen84(ticketTime)), ReviewPost(GreatRead(reviewTime))]
  {
    var posts := [TicketPost(Nineteen84(ticketTime)), ReviewPost(GreatRead(reviewTime))];
    var last := [ReviewPost(GreatRead(reviewTime))];
    AliceChain(reviewTime, ticketTime);
    assert SortNewestFirst(last) == last by {
      assert last[1..] == [];
    }
    assert posts[1..] == last;
  }

  /** Alice wrote a ticket at `ticketTime` and reviewed it at `reviewTime`. */
  function OwnReviewStore(ticketTime: nat, reviewTime: nat): Db {
    Db([Alice], [Nineteen84(ticketTime)], [Review(1, 2, 4, "Chilling", "", Alice.id, reviewTime)], [], [])
  }

  lemma OwnReviewChain(ticketTime: nat, reviewTime: nat)
    ensures var db := OwnReviewStore(ticketTime, reviewTime);
      Chain(db, Alice.id) == [TicketPost(db.tickets[0]), ReviewPost(db.reviews[0]), ReviewPost(db.reviews[0])]
  {
    var db := OwnReviewStore(ticketTime, reviewTime);
    assert Authors(db, 1) == {1} by {
      assert FollowedUsers(db, 1) == {};
    }
    assert TicketIdsOwnedBy(db, 1) == {2};
    assert db.tickets[1..] == [] && db.reviews[1..] == [];
  }

  /** When the review is newer than the ticket, it is in Alice's feed twice, both times before the ticket. */
  lemma OwnReviewOnOwnTicketTwice(ticketTime: nat, reviewTime: nat)
    requires ticketTime < reviewTime
    ensures var db := OwnReviewStore(ticketTime, reviewTime);
      Feed(db, Alice.id) == [ReviewPost(db.reviews[0]), ReviewPost(db.reviews[0]), TicketPost(db.tickets[0])]
  {
    var db := OwnReviewStore(ticketTime, reviewTime);
    var t, r := TicketPost(db.tickets[0]), ReviewPost(db.reviews[0]);
    var posts, one, two := [t, r, r], [r], [r, r];
    OwnReviewChain(ticketTime, reviewTime);
    assert SortNewestFirst(one) == one by {
      assert one[1..] == [];
    }
    assert SortNewestFirst(two) == two by {
      assert two[1..] == one;
    }
    assert posts[1..] == two;
    assert Insert(t, two) == [r] + Insert(t, one) by {
      assert two[1..] == one;
    }
    assert Insert(t, one) == [r] + Insert(t, []);
  }
}
