/** The notifications on screen: which messages each still waits on, and which goes when. */
module Notifications {
  import opened Text

  datatype Target = Target(account: int, thread: string, message: string)

  datatype Button = Archive | MarkRead | Delete | Reply

  /** What one notification says and acts on; `counted` are the messages it announced. */
  datatype Notice = Notice(target: Option<Target>, buttons: seq<Button>, counted: seq<Target>)

  /** A message a notification waits on, in the account of the notification. */
  datatype Waiting = Waiting(thread: string, message: string)

  datatype Shown = Shown(account: int, pending: seq<Waiting>, actsOn: Option<(Target, seq<Button>)>)

  /** The tokens still answering, oldest first, and what each was posted for. */
  datatype Book = Book(order: seq<string>, shown: map<string, Shown>)

  /** The messages of one notification the store is asked about. */
  datatype Asked = Asked(token: string, ids: seq<string>)

  const KEPT: nat := 200

  const NO_BOOK := Book([], map[])

  function PendingOf(targets: seq<Target>): (pending: seq<Waiting>)
    ensures |pending| == |targets|
  {
    seq(|targets|, i requires 0 <= i < |targets| => Waiting(targets[i].thread, targets[i].message))
  }

  function Kept(book: Book, token: string, shown: Shown): (Book, Option<string>) {
    if |book.order| == KEPT then
      var oldest := book.order[0];
      (Book(book.order[1..] + [token], (book.shown - {oldest})[token := shown]), Some(oldest))
    else
      (Book(book.order + [token], book.shown[token := shown]), None)
  }

  function WithIssued(book: Book, token: string, target: Target, buttons: seq<Button>): (Book, Option<string>) {
    Kept(book, token, Shown(target.account, PendingOf([target]), Some((target, buttons))))
  }

  function WithSummary(book: Book, token: string, counted: seq<Target>): (Book, Option<string>) {
    if counted == [] then (book, None)
    else Kept(book, token, Shown(counted[0].account, PendingOf(counted), None))
  }

  function IdsIn(pending: seq<Waiting>, threads: set<string>): seq<string> {
    if pending == [] then []
    else (if pending[0].thread in threads then [pending[0].message] else []) + IdsIn(pending[1..], threads)
  }

  function AskedIn(order: seq<string>, shown: map<string, Shown>, account: int, threads: set<string>): seq<Asked> {
    if order == [] then []
    else
      var token := order[0];
      var ids := if token in shown && shown[token].account == account
                 then IdsIn(shown[token].pending, threads) else [];
      (if ids == [] then [] else [Asked(token, ids)]) + AskedIn(order[1..], shown, account, threads)
  }

  /** The notifications waiting on a message in `threads` of `account`, oldest first. */
  function InThreads(book: Book, account: int, threads: set<string>): seq<Asked> {
    AskedIn(book.order, book.shown, account, threads)
  }

  function Retain(pending: seq<Waiting>, settled: set<string>): seq<Waiting> {
    if pending == [] then []
    else (if pending[0].message in settled then [] else [pending[0]]) + Retain(pending[1..], settled)
  }

  function Without(order: seq<string>, token: string): seq<string> {
    if order == [] then []
    else (if order[0] == token then [] else [order[0]]) + Without(order[1..], token)
  }

  function Forgotten(book: Book, token: string): Book {
    if token in book.shown then Book(Without(book.order, token), book.shown - {token}) else book
  }

  /** Whether nothing is left to wait on is the second part. */
  function Settled(book: Book, token: string, settled: set<string>): (Book, bool) {
    if token !in book.shown then (book, false)
    else
      var shown := book.shown[token];
      var left := Retain(shown.pending, settled);
      var fewer := book.(shown := book.shown[token := shown.(pending := left)]);
      if left != [] then (fewer, false) else (Forgotten(fewer, token), true)
  }

  function SettledAmong(ids: seq<string>, still: set<string>): set<string> {
    set id | id in ids && id !in still
  }

  // What a book is known by: which notification waits on which message.

  predicate Waits(book: Book, token: string, target: Target) {
    && token in book.shown && book.shown[token].account == target.account
    && Waiting(target.thread, target.message) in book.shown[token].pending
  }

  predicate Distinct(order: seq<string>) {
    order == [] || (order[0] !in order[1..] && Distinct(order[1..]))
  }

  /** A book in order: every token once, with a message to wait on, and no more than are kept. */
  ghost predicate Tidy(book: Book) {
    && Distinct(book.order) && |book.order| <= KEPT
    && (forall token :: token in book.order <==> token in book.shown)
    && (forall token :: token in book.shown ==> book.shown[token].pending != [])
  }

  predicate Asks(asked: seq<Asked>, token: string, id: string) {
    exists i :: 0 <= i < |asked| && asked[i].token == token && id in asked[i].ids
  }

  lemma {:induction false} DistinctAppend(order: seq<string>, token: string)
    requires Distinct(order) && token !in order
    ensures Distinct(order + [token])
  {
    if order == [] {
      assert [token][1..] == [];
    } else {
      DistinctAppend(order[1..], token);
      assert (order + [token])[1..] == order[1..] + [token];
    }
  }

  lemma {:induction false} WithoutIs(order: seq<string>, token: string)
    requires Distinct(order)
    ensures Distinct(Without(order, token)) && |Without(order, token)| <= |order|
    ensures forall kept :: kept in Without(order, token) <==> kept in order && kept != token
  {
    if order != [] {
      WithoutIs(order[1..], token);
      var tail := Without(order[1..], token);
      assert order == [order[0]] + order[1..];
      if order[0] != token {
        assert Without(order, token)[0] == order[0] && Without(order, token)[1..] == tail;
      } else {
        assert Without(order, token) == tail;
      }
    }
  }

  lemma {:induction false} RetainIs(pending: seq<Waiting>, settled: set<string>, waiting: Waiting)
    ensures waiting in Retain(pending, settled) <==> waiting in pending && waiting.message !in settled
  {
    if pending != [] {
      RetainIs(pending[1..], settled, waiting);
      assert pending == [pending[0]] + pending[1..];
    }
  }

  lemma {:induction false} IdsInIs(pending: seq<Waiting>, threads: set<string>, waiting: Waiting)
    requires waiting in pending && waiting.thread in threads
    ensures waiting.message in IdsIn(pending, threads)
  {
    if pending[0] != waiting {
      assert pending == [pending[0]] + pending[1..];
      IdsInIs(pending[1..], threads, waiting);
    }
  }

  lemma AsksMore(first: seq<Asked>, rest: seq<Asked>, token: string, id: string)
    ensures Asks(first + rest, token, id) <==> Asks(first, token, id) || Asks(rest, token, id)
  {
    var all := first + rest;
    if Asks(first, token, id) {
      var i :| 0 <= i < |first| && first[i].token == token && id in first[i].ids;
      assert all[i] == first[i];
    }
    if Asks(rest, token, id) {
      var i :| 0 <= i < |rest| && rest[i].token == token && id in rest[i].ids;
      assert all[|first| + i] == rest[i];
    }
  }

  lemma {:induction false} AskedInFinds(order: seq<string>, book: Book, account: int, threads: set<string>,
                                        token: string, target: Target)
    requires token in order && Waits(book, token, target)
    requires target.account == account && target.thread in threads
    ensures Asks(AskedIn(order, book.shown, account, threads), token, target.message)
  {
    var asked := AskedIn(order, book.shown, account, threads);
    if order[0] == token {
      var shown := book.shown[token];
      IdsInIs(shown.pending, threads, Waiting(target.thread, target.message));
      assert asked[0] == Asked(token, IdsIn(shown.pending, threads));
    } else {
      assert order == [order[0]] + order[1..];
      AskedInFinds(order[1..], book, account, threads, token, target);
      var rest := AskedIn(order[1..], book.shown, account, threads);
      AsksMore(asked[..|asked| - |rest|], rest, token, target.message);
      assert asked == asked[..|asked| - |rest|] + rest;
    }
  }

  lemma {:induction false} AskedInOwn(order: seq<string>, book: Book, account: int, threads: set<string>,
                                      token: string, id: string)
    requires Asks(AskedIn(order, book.shown, account, threads), token, id)
    ensures token in book.shown && book.shown[token].account == account
  {
    var rest := AskedIn(order[1..], book.shown, account, threads);
    var asked := AskedIn(order, book.shown, account, threads);
    AsksMore(asked[..|asked| - |rest|], rest, token, id);
    assert asked == asked[..|asked| - |rest|] + rest;
    if Asks(rest, token, id) {
      AskedInOwn(order[1..], book, account, threads, token, id);
    }
  }

  /** Whoever is asked about waits in that account. */
  lemma InThreadsOwn(book: Book, account: int, threads: set<string>, token: string, id: string)
    requires Asks(InThreads(book, account, threads), token, id)
    ensures token in book.shown && book.shown[token].account == account
  {
    AskedInOwn(book.order, book, account, threads, token, id);
  }

  /** A change to a thread finds every notification that waits on a message of it. */
  lemma InThreadsFinds(book: Book, account: int, threads: set<string>, token: string, target: Target)
    requires Tidy(book) && Waits(book, token, target)
    requires target.account == account && target.thread in threads
    ensures Asks(InThreads(book, account, threads), token, target.message)
  {
    AskedInFinds(book.order, book, account, threads, token, target);
  }

  /** Settling stops waiting on exactly the settled messages, and forgets a notification
      exactly when it waits on none. */
  lemma SettleExact(book: Book, token: string, settled: set<string>)
    requires Tidy(book)
    ensures var (after, gone) := Settled(book, token, settled);
            && Tidy(after)
            && (gone <==> token in book.shown && token !in after.shown)
            && after.shown.Keys == (if gone then book.shown.Keys - {token} else book.shown.Keys)
            && (forall k, t :: Waits(after, k, t)
                 <==> Waits(book, k, t) && !(k == token && t.message in settled))
  {
    hide Retain, Without, Distinct;
    var (after, gone) := Settled(book, token, settled);
    if token in book.shown {
      var pending := book.shown[token].pending;
      WithoutIs(book.order, token);
      forall k, t ensures Waits(after, k, t) <==> Waits(book, k, t) && !(k == token && t.message in settled) {
        RetainIs(pending, settled, Waiting(t.thread, t.message));
      }
    }
  }

  /** Posting waits on the counted messages, and stops answering for the oldest
      notification exactly when there is no room. */
  lemma KeepExact(book: Book, token: string, counted: seq<Target>, actsOn: Option<(Target, seq<Button>)>)
    requires Tidy(book) && token !in book.shown && counted != []
    requires forall t :: t in counted ==> t.account == counted[0].account
    ensures var (after, evicted) := Kept(book, token, Shown(counted[0].account, PendingOf(counted), actsOn));
            && Tidy(after)
            && (evicted.Some? <==> |book.order| == 200)
            && (evicted.Some? ==> evicted.value == book.order[0] && evicted.value in book.shown)
            && after.shown.Keys
               == (if evicted.Some? then book.shown.Keys - {evicted.value} else book.shown.Keys) + {token}
            && (forall k, t :: Waits(after, k, t)
                 <==> if k == token then t in counted else Some(k) != evicted && Waits(book, k, t))
  {
    var (after, evicted) := Kept(book, token, Shown(counted[0].account, PendingOf(counted), actsOn));
    if evicted.Some? {
      assert book.order == [evicted.value] + book.order[1..];
      DistinctAppend(book.order[1..], token);
    } else {
      DistinctAppend(book.order, token);
    }
    forall t ensures t in counted
      <==> t.account == counted[0].account && Waiting(t.thread, t.message) in PendingOf(counted) {
      PendingOfIs(counted, t);
    }
  }

  lemma PendingOfIs(counted: seq<Target>, t: Target)
    requires counted != [] && forall u :: u in counted ==> u.account == counted[0].account
    ensures t in counted <==> t.account == counted[0].account && Waiting(t.thread, t.message) in PendingOf(counted)
  {
    if t in counted {
      var i :| 0 <= i < |counted| && counted[i] == t;
      assert PendingOf(counted)[i] == Waiting(t.thread, t.message);
    }
    if t.account == counted[0].account && Waiting(t.thread, t.message) in PendingOf(counted) {
      var i :| 0 <= i < |counted| && PendingOf(counted)[i] == Waiting(t.thread, t.message);
      assert counted[i] == t;
    }
  }

  // The record the app keeps, changed in place.

  class Issued {
    var order: seq<string>
    var shown: map<string, Shown>

    ghost function Contents(): Book
      reads this
    {
      Book(order, shown)
    }

    constructor ()
      ensures Contents() == NO_BOOK
    {
      order, shown := [], map[];
    }

    method Issue(token: string, target: Target, buttons: seq<Button>) returns (evicted: Option<string>)
      modifies this
      ensures (Contents(), evicted) == WithIssued(old(Contents()), token, target, buttons)
    {
      evicted := Keep(token, Shown(target.account, PendingOf([target]), Some((target, buttons))));
    }

    method IssueSummary(token: string, counted: seq<Target>) returns (evicted: Option<string>)
      modifies this
      ensures (Contents(), evicted) == WithSummary(old(Contents()), token, counted)
    {
      if counted == [] {
        return None;
      }
      evicted := Keep(token, Shown(counted[0].account, PendingOf(counted), None));
    }

    method Keep(token: string, entry: Shown) returns (evicted: Option<string>)
      modifies this
      ensures (Contents(), evicted) == Kept(old(Contents()), token, entry)
    {
      evicted := None;
      if |order| == KEPT {
        evicted := Some(order[0]);
        order := order[1..];
      }
      if evicted.Some? {
        shown := shown - {evicted.value};
      }
      order := order + [token];
      shown := shown[token := entry];
    }

    function WaitingIn(account: int, threads: set<string>): (asked: seq<Asked>)
      reads this
      ensures asked == InThreads(Contents(), account, threads)
    {
      if order == [] then [] else AskedIn(order, shown, account, threads)
    }

    method Settle(token: string, settled: set<string>) returns (gone: bool)
      modifies this
      ensures (Contents(), gone) == Settled(old(Contents()), token, settled)
    {
      if token !in shown {
        return false;
      }
      var entry := shown[token];
      shown := shown[token := entry.(pending := Retain(entry.pending, settled))];
      if shown[token].pending != [] {
        return false;
      }
      Forget(token);
      gone := true;
    }

    method Forget(token: string)
      modifies this
      ensures Contents() == Forgotten(old(Contents()), token)
    {
      if token in shown {
        shown := shown - {token};
        order := Without(order, token);
      }
    }
  }
}
