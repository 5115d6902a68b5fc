/**
  The shared store the views of reviews/views.py mutate in place through
  save(), delete() and objects.create(): one object holding the five tables
  and the next primary keys the database would hand out. Each method is one
  view; its outcome and the new contents of the tables are those of the
  matching step function in module Views, and every method keeps the store
  consistent.
*/
module Store {
  import opened Models
  import Views

  /** Every ticket id and every follow-edge id in use is below the next one the store hands out. */
  predicate KeysBelow(db: Db, nextTicketId: nat, nextFollowId: nat) {
    && (forall t :: t in db.tickets ==> t.id < nextTicketId)
    && (forall f :: f in db.follows ==> f.id < nextFollowId)
  }

  /** A consistent store that hands out fresh keys. */
  predicate StoreValid(db: Db, nextTicketId: nat, nextFollowId: nat) {
    ValidDb(db) && KeysBelow(db, nextTicketId, nextFollowId)
  }

  lemma DeleteTicketKeepsStoreValid(db: Db, tid: TicketId, nextTicketId: nat, nextFollowId: nat)
    requires StoreValid(db, nextTicketId, nextFollowId)
    ensures StoreValid(DeleteTicketCascade(db, tid), nextTicketId, nextFollowId)
  {
    DeleteTicketCascadeKeepsValid(db, tid);
  }

  class Store {
    var users: seq<User>
    var tickets: seq<Ticket>
    var reviews: seq<Review>
    var follows: seq<UserFollows>
    var comments: seq<Comment>
    var nextTicketId: nat
    var nextFollowId: nat

    /** The tables as one value. */
    function Snapshot(): Db
      reads this
    {
      Db(users, tickets, reviews, follows, comments)
    }

    /** A consistent store whose next primary keys are above every key in use. */
    predicate Valid()
      reads this
    {
      StoreValid(Snapshot(), nextTicketId, nextFollowId)
    }

    constructor (db: Db, firstTicketId: nat, firstFollowId: nat)
      requires ValidDb(db)
      requires KeysBelow(db, firstTicketId, firstFollowId)
      ensures Valid() && Snapshot() == db
      ensures nextTicketId == firstTicketId && nextFollowId == firstFollowId
    {
      users, tickets, reviews, follows, comments := db.users, db.tickets, db.reviews, db.follows, db.comments;
      nextTicketId, nextFollowId := firstTicketId, firstFollowId;
    }

    /** add_ticket: a valid POST creates a ticket owned by the requester, with the next ticket id. */
    method AddTicket(requester: UserId, isPost: bool, title: string, description: string, now: nat)
      returns (outcome: Views.Outcome)
      requires Valid() && requester in UserIds(Snapshot())
      modifies this
      ensures Valid()
      ensures Views.Step(outcome, Snapshot()) ==
        Views.AddTicket(old(Snapshot()), requester, isPost, title, description, old(nextTicketId), now)
      ensures outcome == Views.Saved ==> tickets[|tickets| - 1].user == requester
      ensures nextTicketId == if outcome == Views.Saved then old(nextTicketId) + 1 else old(nextTicketId)
      ensures nextFollowId == old(nextFollowId)
    {
      if !isPost {
        return Views.FormPage;
      }
      if !Views.TicketFormValid(title, description) {
        return Views.InvalidForm;
      }
      Views.AddTicketKeepsValid(Snapshot(), requester, isPost, title, description, nextTicketId, now);
      tickets := tickets + [Ticket(nextTicketId, title, description, requester, now)];
      nextTicketId := nextTicketId + 1;
      outcome := Views.Saved;
    }

    /** edit_ticket: only the owner's valid POST changes the ticket, and only its title and description. */
    method EditTicket(requester: UserId, ticketId: TicketId, isPost: bool, title: string, description: string)
      returns (outcome: Views.Outcome)
      requires Valid()
      modifies this
      ensures Valid()
      ensures Views.Step(outcome, Snapshot()) ==
        Views.EditTicket(old(Snapshot()), requester, ticketId, isPost, title, description)
      ensures outcome != Views.Saved ==> unchanged(this)
      ensures nextTicketId == old(nextTicketId) && nextFollowId == old(nextFollowId)
    {
      var found := Views.IndexOfTicket(tickets, ticketId);
      if found.None? {
        return Views.ServerError;
      }
      var i := found.value;
      var ticket := tickets[i];
      if ticket.user != requester {
        return Views.NotOwner;
      }
      if !isPost {
        return Views.FormPage;
      }
      if !Views.TicketFormValid(title, description) {
        return Views.InvalidForm;
      }
      Views.EditTicketKeepsValid(Snapshot(), requester, ticketId, isPost, title, description);
      tickets := tickets[i := ticket.(title := title, description := description)];
      outcome := Views.Saved;
    }

    /** delete_ticket: only the owner's POST deletes, and the ticket's reviews and comments go with it. */
    method DeleteTicket(requester: UserId, ticketId: TicketId, isPost: bool) returns (outcome: Views.Outcome)
      requires Valid()
      modifies this
      ensures Valid()
      ensures Views.Step(outcome, Snapshot()) == Views.DeleteTicket(old(Snapshot()), requester, ticketId, isPost)
      ensures outcome != Views.Saved ==> unchanged(this)
      ensures nextTicketId == old(nextTicketId) && nextFollowId == old(nextFollowId)
    {
      var found := Views.IndexOfTicket(tickets, ticketId);
      if found.None? {
        return Views.ServerError;
      }
      if tickets[found.value].user != requester {
        return Views.NotOwner;
      }
      if !isPost {
        return Views.FormPage;
      }
      Cascade(ticketId);
      outcome := Views.Saved;
    }

    /** Ticket.delete(): the ticket goes, and with it its reviews and comments. */
    method Cascade(ticketId: TicketId)
      requires Valid()
      modifies this
      ensures Valid()
      ensures Snapshot() == DeleteTicketCascade(old(Snapshot()), ticketId)
      ensures nextTicketId == old(nextTicketId) && nextFollowId == old(nextFollowId)
    {
      var after := DeleteTicketCascade(Snapshot(), ticketId);
      DeleteTicketKeepsStoreValid(Snapshot(), ticketId, nextTicketId, nextFollowId);
      tickets, reviews, comments := after.tickets, after.reviews, after.comments;
    }

    /** edit_comment: only the owner's valid POST changes the comment, and only its body. */
    method EditComment(caller: Views.Caller, commentId: nat, isPost: bool, body: string)
      returns (outcome: Views.Outcome)
      requires Valid()
      modifies this
      ensures Valid()
      ensures Views.Step(outcome, Snapshot()) == Views.EditComment(old(Snapshot()), caller, commentId, isPost, body)
      ensures outcome != Views.Saved ==> unchanged(this)
      ensures nextTicketId == old(nextTicketId) && nextFollowId == old(nextFollowId)
    {
      var found := Views.IndexOfComment(comments, commentId);
      if found.None? {
        return Views.NotFound404;
      }
      var i := found.value;
      var comment := comments[i];
      if caller != Views.Member(comment.user) {
        return Views.NotOwner;
      }
      if !isPost {
        return Views.FormPage;
      }
      if !Views.CommentFormValid(body) {
        return Views.InvalidForm;
      }
      Views.EditCommentKeepsValid(Snapshot(), caller, commentId, isPost, body);
      comments := comments[i := comment.(body := body)];
      outcome := Views.Saved;
    }

    /** delete_comment: only the owner's POST deletes the comment. */
    method DeleteComment(caller: Views.Caller, commentId: nat, isPost: bool) returns (outcome: Views.Outcome)
      requires Valid()
      modifies this
      ensures Valid()
      ensures Views.Step(outcome, Snapshot()) == Views.DeleteComment(old(Snapshot()), caller, commentId, isPost)
      ensures outcome != Views.Saved ==> unchanged(this)
      ensures nextTicketId == old(nextTicketId) && nextFollowId == old(nextFollowId)
    {
      var found := Views.IndexOfComment(comments, commentId);
      if found.None? {
        return Views.NotFound404;
      }
      var i := found.value;
      if caller != Views.Member(comments[i].user) {
        return Views.NotOwner;
      }
      if !isPost {
        return Views.FormPage;
      }
      Views.DeleteCommentKeepsValid(Snapshot(), caller, commentId, isPost);
      comments := comments[..i] + comments[i + 1..];
      outcome := Views.Saved;
    }

    /** add_follow: lookup, self check, duplicate check, then one new edge with the next edge id. */
    method AddFollow(requester: UserId, isPost: bool, username: string) returns (outcome: Views.AddFollowOutcome)
      requires Valid() && requester in UserIds(Snapshot())
      modifies this
      ensures Valid()
      ensures Views.Step(outcome, Snapshot()) ==
        Views.AddFollow(old(Snapshot()), requester, isPost, username, old(nextFollowId))
      ensures outcome != Views.Followed ==> unchanged(this)
      ensures nextTicketId == old(nextTicketId)
      ensures nextFollowId == if outcome == Views.Followed then old(nextFollowId) + 1 else old(nextFollowId)
    {
      if !isPost {
        return Views.FollowFormPage;
      }
      var target := Views.FindUserByUsername(users, username);
      if target.None? {
        return Views.UserLookupCrash;
      }
      var followed := target.value.id;
      if followed == requester {
        return Views.SelfFollow;
      }
      if Views.EdgeCount(follows, requester, followed) > 0 {
        return Views.AlreadyFollowing;
      }
      Views.AddFollowKeepsValid(Snapshot(), requester, isPost, username, nextFollowId);
      follows := follows + [UserFollows(nextFollowId, requester, followed)];
      nextFollowId := nextFollowId + 1;
      outcome := Views.Followed;
    }

    /** remove_follow: deletes the edge `followId` only if the requester is its follower. */
    method RemoveFollow(requester: UserId, followId: nat) returns (outcome: Views.RemoveFollowOutcome)
      requires Valid()
      modifies this
      ensures Valid()
      ensures Views.Step(outcome, Snapshot()) == Views.RemoveFollow(old(Snapshot()), requester, followId)
      ensures outcome != Views.Unfollowed ==> unchanged(this)
      ensures nextTicketId == old(nextTicketId) && nextFollowId == old(nextFollowId)
    {
      var found := Views.IndexOfOwnedFollow(follows, followId, requester);
      if found.None? {
        return Views.FollowNotFound;
      }
      var i := found.value;
      Views.RemoveFollowKeepsValid(Snapshot(), requester, followId);
      follows := follows[..i] + follows[i + 1..];
      outcome := Views.Unfollowed;
    }
  }
}
