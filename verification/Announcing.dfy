/** New-mail notifications against changes to the store: announcing from a stale read,
    change events, and the two halves of settling, in any order. */
module Announcing {
  import opened Text
  import opened Notifications

  datatype Row = Row(target: Target, inInbox: bool, unread: bool, vip: bool)

  datatype Settings = Settings(notifications: bool, vipsOnly: bool, previews: bool, buttons: seq<Button>)

  /** The threads of one account a change event names. */
  datatype Change = Change(account: int, threads: set<string>)

  /** A settle on its way to the store, or back with the ids still unread in the Inbox. */
  datatype Settling =
    | Asking(account: int, asked: seq<Asked>)
    | Answered(account: int, asked: seq<Asked>, still: set<string>)

  /** The notifications the app answers for, and the tokens on screen. The last three only
      record the run: what every token was posted for, which were pushed out, and for which
      message of a token a read of the store came back without it. */
  datatype Desk = Desk(book: Book, visible: set<string>,
                       posted: map<string, seq<Target>>, evicted: set<string>, seen: set<(string, Target)>)

  /** `news` is the mail the store holds unread in the Inbox. */
  datatype State = State(news: set<Target>, changes: seq<Change>, found: seq<seq<Row>>, returned: seq<Target>,
                         settling: seq<Settling>, desk: Desk)

  const START := State({}, [], [], [], [], Desk(NO_BOOK, {}, map[], {}, {}))

  // Announcing.

  function NoticeOf(messages: seq<Target>, buttons: seq<Button>, target: Option<Target>): Notice {
    match target
    case Some(message) => Notice(target, buttons, [message])
    case None => Notice(None, [], messages)
  }

  function Notices(messages: seq<Target>, previews: bool, buttons: seq<Button>): (notices: seq<Notice>)
    ensures |notices| <= |messages| + 1
  {
    if !previews then [NoticeOf(messages, buttons, if |messages| == 1 then Some(messages[0]) else None)]
    else if |messages| <= 3 then
      seq(|messages|, i requires 0 <= i < |messages| => NoticeOf(messages, buttons, Some(messages[i])))
    else [NoticeOf(messages, buttons, None)]
  }

  function PostOne(desk: Desk, notice: Notice, token: string): Desk {
    var (book, evicted) :=
      match notice.target {
        case Some(target) => WithIssued(desk.book, token, target, notice.buttons)
        case None => WithSummary(desk.book, token, notice.counted)
      };
    var gone := if evicted.Some? then {evicted.value} else {};
    Desk(book, desk.visible - gone + {token}, desk.posted[token := notice.counted], desk.evicted + gone, desk.seen)
  }

  function Post(desk: Desk, notices: seq<Notice>, tokens: seq<string>): Desk
    requires |notices| <= |tokens|
    decreases |notices|
  {
    if notices == [] then desk
    else Post(PostOne(desk, notices[0], tokens[0]), notices[1..], tokens[1..])
  }

  predicate StillNews(row: Row) {
    row.inInbox && row.unread
  }

  predicate InView(target: Target, viewed: Option<Target>) {
    viewed.Some? && viewed.value.account == target.account && viewed.value.thread == target.thread
  }

  /** The rows that deserve a notification. */
  function Deserving(rows: seq<Row>, settings: Settings, viewed: Option<Target>): seq<Target> {
    if rows == [] then []
    else
      var row := rows[0];
      (if StillNews(row) && (!settings.vipsOnly || row.vip) && !InView(row.target, viewed) then [row.target] else [])
      + Deserving(rows[1..], settings, viewed)
  }

  function Threads(messages: seq<Target>): set<string> {
    set m | m in messages :: m.thread
  }

  // Settling.

  /** The first half: who is waiting in those threads. */
  function Settle(settling: seq<Settling>, book: Book, account: int, threads: set<string>): seq<Settling> {
    var asked := InThreads(book, account, threads);
    if asked == [] then settling else settling + [Asking(account, asked)]
  }

  function IdsOf(asked: seq<Asked>): set<string> {
    set a, id | a in asked && id in a.ids :: id
  }

  /** Which of `ids` the store holds unread in the Inbox of `account`. */
  function UnreadInInbox(news: set<Target>, account: int, ids: set<string>): set<string> {
    set t | t in news && t.account == account && t.message in ids :: t.message
  }

  /** The second half, with the store's answer. */
  function Withdraw(desk: Desk, asked: seq<Asked>, still: set<string>): Desk
    decreases |asked|
  {
    if asked == [] then desk
    else
      var (book, gone) := Settled(desk.book, asked[0].token, SettledAmong(asked[0].ids, still));
      Withdraw(desk.(book := book, visible := if gone then desk.visible - {asked[0].token} else desk.visible),
               asked[1..], still)
  }

  // Runs.

  datatype Step =
    | Store(news: set<Target>, change: Change)
    | Hear(which: nat)
    | ReadNew(rows: seq<Row>)
    | Announce(which: nat, settings: Settings, viewed: Option<Target>, tokens: seq<string>)
    | Return(target: Target)
    | Remind(which: nat, settings: Settings, token: string)
    | ReadStill(which: nat)
    | Withdrawing(which: nat)

  ghost predicate Explains(change: Change, before: set<Target>, after: set<Target>) {
    forall t :: (t in before) != (t in after) ==> t.account == change.account && t.thread in change.threads
  }

  /** A message stays in one thread. */
  predicate Filed(threadOf: (int, string) -> string, t: Target) {
    t.thread == threadOf(t.account, t.message)
  }

  /** Which steps the store, the settings and the random tokens allow. */
  ghost predicate Allowed(threadOf: (int, string) -> string, s: State, step: Step) {
    match step
    case Store(news, change) => (forall t :: t in news ==> Filed(threadOf, t)) && Explains(change, s.news, news)
    case Hear(which) => which < |s.changes|
    case ReadNew(rows) =>
      && (forall i :: 0 <= i < |rows| ==> Filed(threadOf, rows[i].target))
      && (forall i :: 0 <= i < |rows| ==> (StillNews(rows[i]) <==> rows[i].target in s.news))
      && (forall i :: 0 <= i < |rows| ==> rows[i].target.account == rows[0].target.account)
    case Announce(which, settings, viewed, tokens) =>
      && which < |s.found|
      && |tokens| == |Notices(Deserving(s.found[which], settings, viewed), settings.previews, settings.buttons)|
      && Distinct(tokens) && (forall token :: token in tokens ==> token !in s.desk.posted)
    case Return(target) => Filed(threadOf, target) && target in s.news
    case Remind(which, settings, token) => which < |s.returned| && token !in s.desk.posted
    case ReadStill(which) => which < |s.settling| && s.settling[which].Asking?
    case Withdrawing(which) => which < |s.settling| && s.settling[which].Answered?
  }

  function Announced(s: State, rows: seq<Row>, settings: Settings, viewed: Option<Target>, tokens: seq<string>): State
    requires |Notices(Deserving(rows, settings, viewed), settings.previews, settings.buttons)| <= |tokens|
  {
    var messages := Deserving(rows, settings, viewed);
    if !settings.notifications || messages == [] then s
    else
      var desk := Post(s.desk, Notices(messages, settings.previews, settings.buttons), tokens);
      s.(desk := desk, settling := Settle(s.settling, desk.book, messages[0].account, Threads(messages)))
  }

  function After(threadOf: (int, string) -> string, s: State, step: Step): State
    requires Allowed(threadOf, s, step)
  {
    match step
    case Store(news, change) => s.(news := news, changes := s.changes + [change])
    case Hear(which) =>
      var change := s.changes[which];
      s.(changes := Drop(s.changes, which),
         settling := Settle(s.settling, s.desk.book, change.account, change.threads))
    case ReadNew(rows) => s.(found := s.found + [rows])
    case Announce(which, settings, viewed, tokens) =>
      Announced(s.(found := Drop(s.found, which)), s.found[which], settings, viewed, tokens)
    case Return(target) => s.(returned := s.returned + [target])
    case Remind(which, settings, token) =>
      var left := s.(returned := Drop(s.returned, which));
      if !settings.notifications then left
      else left.(desk := Post(s.desk, Notices([s.returned[which]], settings.previews, settings.buttons), [token]))
    case ReadStill(which) =>
      var settle := s.settling[which];
      var still := UnreadInInbox(s.news, settle.account, IdsOf(settle.asked));
      var missing := set k, t | k in s.desk.posted && t in s.desk.posted[k] && Asks(settle.asked, k, t.message)
                                && t !in s.news :: (k, t);
      s.(settling := s.settling[which := Answered(settle.account, settle.asked, still)],
         desk := s.desk.(seen := s.desk.seen + missing))
    case Withdrawing(which) =>
      s.(settling := Drop(s.settling, which),
         desk := Withdraw(s.desk, s.settling[which].asked, s.settling[which].still))
  }

  /** No change of the store, no mail found and no reminder due is lost: each waits until the
      step that takes it up. */
  lemma NothingLost(threadOf: (int, string) -> string, s: State, step: Step)
    requires Allowed(threadOf, s, step)
    ensures var after := After(threadOf, s, step);
            && multiset(after.changes) + (if step.Hear? then multiset{s.changes[step.which]} else multiset{})
               == multiset(s.changes) + (if step.Store? then multiset{step.change} else multiset{})
            && multiset(after.found) + (if step.Announce? then multiset{s.found[step.which]} else multiset{})
               == multiset(s.found) + (if step.ReadNew? then multiset{step.rows} else multiset{})
            && multiset(after.returned) + (if step.Remind? then multiset{s.returned[step.which]} else multiset{})
               == multiset(s.returned) + (if step.Return? then multiset{step.target} else multiset{})
  {
    Waiting(threadOf, s, step);
    hide After, Allowed, Drop;
    match step
    case Hear(which) => DropOne(s.changes, which);
    case Announce(which, _, _, _) => DropOne(s.found, which);
    case Remind(which, _, _) => DropOne(s.returned, which);
    case _ =>
  }

  lemma Waiting(threadOf: (int, string) -> string, s: State, step: Step)
    requires Allowed(threadOf, s, step)
    ensures var after := After(threadOf, s, step);
            var waiting := (after.changes, after.found, after.returned);
            match step
            case Store(_, change) => waiting == (s.changes + [change], s.found, s.returned)
            case Hear(which) => which < |s.changes| && waiting == (Drop(s.changes, which), s.found, s.returned)
            case ReadNew(rows) => waiting == (s.changes, s.found + [rows], s.returned)
            case Announce(which, _, _, _) =>
              which < |s.found| && waiting == (s.changes, Drop(s.found, which), s.returned)
            case Return(target) => waiting == (s.changes, s.found, s.returned + [target])
            case Remind(which, _, _) =>
              which < |s.returned| && waiting == (s.changes, s.found, Drop(s.returned, which))
            case _ => waiting == (s.changes, s.found, s.returned)
  {
    hide Settle, Post, Withdraw, Notices, Drop, IdsOf, UnreadInInbox, Asks, Deserving;
  }

  lemma DropOne<T>(items: seq<T>, which: nat)
    requires which < |items|
    ensures multiset(Drop(items, which)) + multiset{items[which]} == multiset(items)
  {
    assert items == items[..which] + [items[which]] + items[which + 1..];
  }

  // What every run keeps.

  /** The desk in order: on screen is what the app answers for; a notification waits only on
      messages it was posted for; and one of those it no longer waits on was pushed out with
      it, or found settled in the store. */
  ghost predicate DeskSound(desk: Desk) {
    && Tidy(desk.book) && desk.visible == desk.book.shown.Keys
    && desk.book.shown.Keys <= desk.posted.Keys && desk.evicted <= desk.posted.Keys
    && desk.evicted !! desk.book.shown.Keys
    && (forall k, t :: Waits(desk.book, k, t) ==> k in desk.posted && t in desk.posted[k])
    && (forall k, t :: k in desk.posted && t in desk.posted[k] ==>
          && (k in desk.book.shown ==> t.account == desk.book.shown[k].account)
          && (k in desk.evicted || Waits(desk.book, k, t) || (k, t) in desk.seen))
  }

  /** A settle asks about its own account, and its answer leaves out only what was seen. */
  ghost predicate SettleSound(desk: Desk, settle: Settling) {
    forall k, id :: Asks(settle.asked, k, id) ==>
      && k in desk.posted
      && (forall t :: t in desk.posted[k] ==>
            && t.account == settle.account
            && (t.message == id && settle.Answered? && id !in settle.still ==> (k, t) in desk.seen))
  }

  ghost predicate Sound(threadOf: (int, string) -> string, s: State) {
    && DeskSound(s.desk)
    && (forall i :: 0 <= i < |s.settling| ==> SettleSound(s.desk, s.settling[i]))
    && (forall t :: t in s.news ==> Filed(threadOf, t))
    && (forall k, t :: k in s.desk.posted && t in s.desk.posted[k] ==> Filed(threadOf, t))
    && (forall i :: 0 <= i < |s.found| ==> OneAccount(threadOf, s.found[i]))
    && (forall i :: 0 <= i < |s.returned| ==> Filed(threadOf, s.returned[i]))
  }

  ghost predicate OneAccount(threadOf: (int, string) -> string, rows: seq<Row>) {
    forall i :: 0 <= i < |rows| ==> Filed(threadOf, rows[i].target) && rows[i].target.account == rows[0].target.account
  }

  ghost predicate Heard(changes: seq<Change>, t: Target) {
    exists i :: 0 <= i < |changes| && Names(changes[i], t)
  }

  predicate Names(change: Change, t: Target) {
    t.account == change.account && t.thread in change.threads
  }

  ghost predicate Covers(settle: Settling, k: string, t: Target) {
    settle.account == t.account && Asks(settle.asked, k, t.message) && (settle.Answered? ==> t.message !in settle.still)
  }

  ghost predicate Covered(s: State, k: string, t: Target) {
    t in s.news || Heard(s.changes, t) || exists i :: 0 <= i < |s.settling| && Covers(s.settling[i], k, t)
  }

  /** Each message a notification waits on is still unread in the Inbox, or something
      that will look at it again is on its way. */
  ghost predicate Watched(s: State) {
    forall k, t :: Waits(s.desk.book, k, t) ==> Covered(s, k, t)
  }

  // Posting.

  predicate Announces(notice: Notice, messages: seq<Target>) {
    && notice.counted != [] && (notice.target.Some? ==> notice.counted == [notice.target.value])
    && (forall t :: t in notice.counted ==> t in messages && t.account == notice.counted[0].account)
  }

  lemma NoticesAnnounce(messages: seq<Target>, previews: bool, buttons: seq<Button>)
    requires messages != [] && forall t :: t in messages ==> t.account == messages[0].account
    ensures var notices := Notices(messages, previews, buttons);
            forall i :: 0 <= i < |notices| ==> Announces(notices[i], messages)
  {
  }

  lemma PostOneExact(desk: Desk, notice: Notice, token: string, messages: seq<Target>)
    requires DeskSound(desk) && Announces(notice, messages) && token !in desk.posted
    ensures var after := PostOne(desk, notice, token);
            && DeskSound(after) && after.seen == desk.seen && after.posted == desk.posted[token := notice.counted]
            && (forall k, t :: Waits(after.book, k, t) ==>
                    Waits(desk.book, k, t) || (k == token && t in notice.counted))
            && (forall t :: t in notice.counted ==> Waits(after.book, token, t))
  {
    hide Kept, Tidy, Waits;
    var actsOn := if notice.target.Some? then Some((notice.target.value, notice.buttons)) else None;
    KeepExact(desk.book, token, notice.counted, actsOn);
    var after := PostOne(desk, notice, token);
    assert after.book == Kept(desk.book, token, Shown(notice.counted[0].account, PendingOf(notice.counted), actsOn)).0;
    KeepAccounts(desk.book, token, Shown(notice.counted[0].account, PendingOf(notice.counted), actsOn));
  }

  lemma KeepAccounts(book: Book, token: string, entry: Shown)
    ensures var after := Kept(book, token, entry).0;
            && token in after.shown && after.shown[token] == entry
            && forall k :: k in after.shown && k != token ==> k in book.shown && after.shown[k] == book.shown[k]
  {
  }

  /** Posting keeps the desk in order, and only messages posted for join those waited on. */
  lemma {:induction false} PostExact(desk: Desk, notices: seq<Notice>, tokens: seq<string>, messages: seq<Target>)
    requires DeskSound(desk) && |notices| <= |tokens| && Distinct(tokens)
    requires forall i :: 0 <= i < |notices| ==> Announces(notices[i], messages)
    requires forall token :: token in tokens ==> token !in desk.posted
    ensures var after := Post(desk, notices, tokens);
            && DeskSound(after) && after.seen == desk.seen
            && (forall k :: k in desk.posted ==> k in after.posted && after.posted[k] == desk.posted[k])
            && (forall k, t :: k in after.posted && k !in desk.posted && t in after.posted[k] ==> t in messages)
            && (forall k, t :: Waits(after.book, k, t) ==> Waits(desk.book, k, t) || t in messages)
    decreases |notices|
  {
    if notices != [] {
      hide DeskSound, PostOne, Waits;
      var next := PostOne(desk, notices[0], tokens[0]);
      PostOneExact(desk, notices[0], tokens[0], messages);
      assert tokens == [tokens[0]] + tokens[1..];
      assert forall i :: 0 <= i < |notices[1..]| ==> notices[1..][i] == notices[i + 1];
      PostExact(next, notices[1..], tokens[1..], messages);
    }
  }

  /** A message is among the deserving exactly when a row of it is mail unread in the Inbox,
      from somebody wanted and not in view. */
  lemma {:induction false} DeservingExact(rows: seq<Row>, settings: Settings, viewed: Option<Target>, t: Target)
    ensures t in Deserving(rows, settings, viewed)
        <==> exists i :: 0 <= i < |rows| && rows[i].target == t && rows[i].inInbox && rows[i].unread
                         && (settings.vipsOnly ==> rows[i].vip)
                         && (viewed.None? || viewed.value.account != t.account || viewed.value.thread != t.thread)
  {
    if rows != [] {
      DeservingExact(rows[1..], settings, viewed, t);
      assert forall i :: 0 < i < |rows| ==> rows[i] == rows[1..][i - 1];
      assert rows[0] == ([rows[0]] + rows[1..])[0];
    }
  }

  // Everything announced is on screen.

  /** All that the notices count, in order. */
  function CountedIn(notices: seq<Notice>): seq<Target> {
    if notices == [] then [] else notices[0].counted + CountedIn(notices[1..])
  }

  /** The notices count every message exactly once, in order. They are three at most, and one
      without previews; each acts on the message it counts, with the buttons, or counts several
      and has neither; and up to three previewed messages have one each. */
  lemma NoticesExact(messages: seq<Target>, previews: bool, buttons: seq<Button>)
    requires messages != []
    ensures var notices := Notices(messages, previews, buttons);
            && CountedIn(notices) == messages
            && 1 <= |notices| <= 3 && (!previews ==> |notices| == 1)
            && (forall i :: 0 <= i < |notices| ==>
                  && (notices[i].target.Some? <==> |notices[i].counted| == 1)
                  && (notices[i].target.Some? ==> notices[i].target.value == notices[i].counted[0])
                  && notices[i].buttons == (if notices[i].target.Some? then buttons else [])
                  && (previews && |messages| <= 3 ==> |notices[i].counted| == 1))
  {
    var notices := Notices(messages, previews, buttons);
    if previews && |messages| <= 3 {
      OneEach(notices, messages);
    } else {
      assert notices[1..] == [] && CountedIn([]) == [];
      assert messages + [] == messages;
    }
  }

  lemma {:induction false} OneEach(notices: seq<Notice>, messages: seq<Target>)
    requires |notices| == |messages| && forall i :: 0 <= i < |notices| ==> notices[i].counted == [messages[i]]
    ensures CountedIn(notices) == messages
  {
    if notices != [] {
      assert forall i :: 0 <= i < |notices[1..]| ==> notices[1..][i] == notices[i + 1];
      OneEach(notices[1..], messages[1..]);
      assert messages == [messages[0]] + messages[1..];
    }
  }

  lemma {:induction false} CountedBy(notices: seq<Notice>, t: Target) returns (i: nat)
    requires t in CountedIn(notices)
    ensures i < |notices| && t in notices[i].counted
  {
    if t in notices[0].counted {
      i := 0;
    } else {
      var under := CountedBy(notices[1..], t);
      i := under + 1;
    }
  }

  /** The tokens posted last. */
  ghost predicate Recent(book: Book, recent: seq<string>) {
    |recent| <= |book.order| && book.order[|book.order| - |recent|..] == recent
  }

  lemma OneMore(order: seq<string>, recent: seq<string>, token: string)
    requires |recent| <= |order| && order[|order| - |recent|..] == recent
    ensures var longer := order + [token]; longer[|longer| - |recent| - 1..] == recent + [token]
    ensures |recent| < |order| ==>
              var moved := order[1..] + [token]; moved[|moved| - |recent| - 1..] == recent + [token]
  {
  }

  lemma RecentOther(order: seq<string>, recent: seq<string>, k: string)
    requires |recent| <= |order| && order[|order| - |recent|..] == recent && k in recent && Distinct(order)
    ensures k in order && (|recent| < |order| ==> k != order[0])
  {
    var i :| 0 <= i < |recent| && recent[i] == k;
    assert order[|order| - |recent| + i] == k;
    assert |recent| < |order| ==> k == order[1..][|order| - |recent| + i - 1];
  }

  lemma KeptRecent(book: Book, token: string, entry: Shown, recent: seq<string>)
    requires Tidy(book) && token !in book.order && Recent(book, recent) && |recent| < KEPT
    ensures var after := Kept(book, token, entry).0;
            && Recent(after, recent + [token])
            && forall k :: k in recent ==> k in after.shown && after.shown[k] == book.shown[k]
  {
    hide Distinct;
    OneMore(book.order, recent, token);
    var after := Kept(book, token, entry).0;
    forall k | k in recent ensures k in after.shown && after.shown[k] == book.shown[k] {
      RecentOther(book.order, recent, k);
    }
  }

  /** What is posted shows, and each of its messages is waited on: no notification of one
      announcement pushes out another. */
  lemma {:induction false} PostRecent(desk: Desk, notices: seq<Notice>, tokens: seq<string>, messages: seq<Target>,
                                      recent: seq<string>)
    requires DeskSound(desk) && |notices| <= |tokens| && Distinct(tokens)
    requires forall i :: 0 <= i < |notices| ==> Announces(notices[i], messages)
    requires forall token :: token in tokens ==> token !in desk.posted
    requires Recent(desk.book, recent) && |recent| + |notices| <= KEPT
    ensures var after := Post(desk, notices, tokens);
            && (forall k :: k in recent && k in desk.book.shown ==>
                  k in after.book.shown && after.book.shown[k] == desk.book.shown[k])
            && (forall i, t :: 0 <= i < |notices| && t in notices[i].counted ==> Waits(after.book, tokens[i], t))
    decreases |notices|
  {
    if notices != [] {
      hide DeskSound, PostOne, Recent;
      var next := PostOne(desk, notices[0], tokens[0]);
      PostOneExact(desk, notices[0], tokens[0], messages);
      assert tokens == [tokens[0]] + tokens[1..];
      assert forall i :: 0 <= i < |notices[1..]| ==> notices[1..][i] == notices[i + 1];
      PostOneRecent(desk, notices[0], tokens[0], messages, recent);
      PostRecent(next, notices[1..], tokens[1..], messages, recent + [tokens[0]]);
      var after := Post(desk, notices, tokens);
      forall i, t | 0 <= i < |notices| && t in notices[i].counted
        ensures Waits(after.book, tokens[i], t)
      {
        if i == 0 {
          assert tokens[0] in recent + [tokens[0]];
          assert Waits(next.book, tokens[0], t);
        } else {
          assert notices[1..][i - 1] == notices[i] && tokens[1..][i - 1] == tokens[i];
        }
      }
    }
  }

  lemma PostOneRecent(desk: Desk, notice: Notice, token: string, messages: seq<Target>, recent: seq<string>)
    requires DeskSound(desk) && Announces(notice, messages) && token !in desk.posted
    requires Recent(desk.book, recent) && |recent| < KEPT
    ensures var after := PostOne(desk, notice, token);
            && Recent(after.book, recent + [token])
            && forall k :: k in recent ==> k in after.book.shown && after.book.shown[k] == desk.book.shown[k]
  {
    hide Kept, Tidy, Waits, Recent;
    var actsOn := if notice.target.Some? then Some((notice.target.value, notice.buttons)) else None;
    var entry := Shown(notice.counted[0].account, PendingOf(notice.counted), actsOn);
    assert PostOne(desk, notice, token).book == Kept(desk.book, token, entry).0;
    assert token !in desk.book.order by {
      TidyOrder(desk.book, token);
    }
    KeptRecent(desk.book, token, entry, recent);
  }

  lemma TidyOrder(book: Book, token: string)
    requires Tidy(book)
    ensures token in book.order <==> token in book.shown
  {
  }

  /** Every deserving message is announced: once posting is done it is waited on under a token
      posted just now, and that one is on screen. */
  lemma AnnouncedShows(s: State, rows: seq<Row>, settings: Settings, viewed: Option<Target>, tokens: seq<string>,
                       t: Target)
    requires DeskSound(s.desk) && Distinct(tokens) && forall token :: token in tokens ==> token !in s.desk.posted
    requires |Notices(Deserving(rows, settings, viewed), settings.previews, settings.buttons)| <= |tokens|
    requires forall m :: m in Deserving(rows, settings, viewed) ==>
               m.account == Deserving(rows, settings, viewed)[0].account
    requires settings.notifications && t in Deserving(rows, settings, viewed)
    ensures var desk := Announced(s, rows, settings, viewed, tokens).desk;
            exists k :: k in desk.visible && k in tokens && k !in s.desk.visible && Waits(desk.book, k, t)
  {
    hide Post, Waits, Deserving, Notices, Settle;
    var messages := Deserving(rows, settings, viewed);
    var notices := Notices(messages, settings.previews, settings.buttons);
    NoticesAnnounce(messages, settings.previews, settings.buttons);
    NoticesExact(messages, settings.previews, settings.buttons);
    PostExact(s.desk, notices, tokens, messages);
    assert Recent(s.desk.book, []);
    PostRecent(s.desk, notices, tokens, messages, []);
    var i := CountedBy(notices, t);
    var desk := Post(s.desk, notices, tokens);
    assert Waits(desk.book, tokens[i], t);
    OnScreen(desk, tokens[i], t);
    NotYet(s.desk, tokens[i]);
  }

  lemma OnScreen(desk: Desk, k: string, t: Target)
    requires DeskSound(desk) && Waits(desk.book, k, t)
    ensures k in desk.visible
  {
  }

  lemma NotYet(desk: Desk, k: string)
    requires DeskSound(desk) && k !in desk.posted
    ensures k !in desk.visible
  {
  }

  // Settling.

  /** Withdrawing for one notification asked about. */
  function WithdrawOne(desk: Desk, asked: Asked, still: set<string>): Desk {
    var (book, gone) := Settled(desk.book, asked.token, SettledAmong(asked.ids, still));
    desk.(book := book, visible := if gone then desk.visible - {asked.token} else desk.visible)
  }

  lemma WithdrawOneExact(desk: Desk, asked: Asked, still: set<string>)
    requires DeskSound(desk)
    requires forall t :: (&& asked.token in desk.posted && t in desk.posted[asked.token]
                          && t.message in asked.ids && t.message !in still) ==> (asked.token, t) in desk.seen
    ensures var after := WithdrawOne(desk, asked, still);
            && DeskSound(after)
            && (after.posted, after.evicted, after.seen) == (desk.posted, desk.evicted, desk.seen)
            && (forall k, t :: Waits(after.book, k, t)
                 <==> Waits(desk.book, k, t) && !(asked.token == k && t.message in asked.ids && t.message !in still))
  {
    hide Settled, Tidy, Waits;
    var settled := SettledAmong(asked.ids, still);
    SettleExact(desk.book, asked.token, settled);
    SettleAccounts(desk.book, asked.token, settled);
  }

  lemma AsksOne(asked: Asked, k: string, id: string)
    ensures Asks([asked], k, id) <==> asked.token == k && id in asked.ids
  {
    if asked.token == k && id in asked.ids {
      assert [asked][0] == asked;
    }
  }

  lemma AsksFirst(asked: seq<Asked>, k: string, id: string)
    requires asked != []
    ensures Asks(asked, k, id) <==> (asked[0].token == k && id in asked[0].ids) || Asks(asked[1..], k, id)
  {
    hide Asks;
    assert [asked[0]] + asked[1..] == asked;
    AsksMore([asked[0]], asked[1..], k, id);
    AsksOne(asked[0], k, id);
  }

  /** Withdrawing stops waiting on exactly what the answer left out. */
  lemma {:induction false} WithdrawExact(desk: Desk, asked: seq<Asked>, still: set<string>)
    requires DeskSound(desk)
    requires forall k, t :: k in desk.posted && t in desk.posted[k] && Asks(asked, k, t.message) && t.message !in still
                            ==> (k, t) in desk.seen
    ensures var after := Withdraw(desk, asked, still);
            && DeskSound(after)
            && (after.posted, after.evicted, after.seen) == (desk.posted, desk.evicted, desk.seen)
            && (forall k, t :: Waits(after.book, k, t)
                 <==> Waits(desk.book, k, t) && !(Asks(asked, k, t.message) && t.message !in still))
    decreases |asked|
  {
    if asked != [] {
      hide Settled, DeskSound, Waits, Asks;
      forall k, id
        ensures Asks(asked, k, id) <==> (asked[0].token == k && id in asked[0].ids) || Asks(asked[1..], k, id)
      {
        AsksFirst(asked, k, id);
      }
      WithdrawOneExact(desk, asked[0], still);
      WithdrawExact(WithdrawOne(desk, asked[0], still), asked[1..], still);
    }
  }

  lemma SettleAccounts(book: Book, token: string, settled: set<string>)
    ensures var after := Settled(book, token, settled).0;
            forall k :: k in after.shown ==> k in book.shown && after.shown[k].account == book.shown[k].account
  {
  }

  lemma SettleSoundMore(desk: Desk, more: Desk, settle: Settling)
    requires SettleSound(desk, settle) && desk.seen <= more.seen
    requires forall k :: k in desk.posted ==> k in more.posted && more.posted[k] == desk.posted[k]
    ensures SettleSound(more, settle)
  {
  }

  /** The first half of a settle asks about every message waited on in those threads. */
  lemma SettleAsks(settling: seq<Settling>, desk: Desk, account: int, threads: set<string>)
    requires DeskSound(desk)
    requires forall i :: 0 <= i < |settling| ==> SettleSound(desk, settling[i])
    ensures var after := Settle(settling, desk.book, account, threads);
            && settling <= after
            && (forall i :: 0 <= i < |after| ==> SettleSound(desk, after[i]))
            && (forall k, t :: Waits(desk.book, k, t) && t.account == account && t.thread in threads
                 ==> exists i :: 0 <= i < |after| && Covers(after[i], k, t))
  {
    hide InThreads, Tidy;
    var asked := InThreads(desk.book, account, threads);
    var after := Settle(settling, desk.book, account, threads);
    var settle := Asking(account, asked);
    forall k, t | Waits(desk.book, k, t) && t.account == account && t.thread in threads
      ensures exists i :: 0 <= i < |after| && Covers(after[i], k, t) {
      InThreadsFinds(desk.book, account, threads, k, t);
      assert Covers(settle, k, t) && after[|settling|] == settle;
    }
    forall k, id | Asks(asked, k, id) ensures k in desk.book.shown && desk.book.shown[k].account == account {
      InThreadsOwn(desk.book, account, threads, k, id);
    }
    assert SettleSound(desk, settle);
  }

  /** Dropping the one settle or event that does not cover leaves the rest covering. */
  lemma CoversDropped(settling: seq<Settling>, which: nat, k: string, t: Target)
    requires which < |settling| && !Covers(settling[which], k, t)
    requires exists i :: 0 <= i < |settling| && Covers(settling[i], k, t)
    ensures var left := Drop(settling, which); exists i :: 0 <= i < |left| && Covers(left[i], k, t)
  {
    var left := Drop(settling, which);
    var i :| 0 <= i < |settling| && Covers(settling[i], k, t);
    var j := if i < which then i else i - 1;
    assert left[j] == settling[i];
  }

  lemma HeardDropped(changes: seq<Change>, which: nat, t: Target)
    requires which < |changes| && Heard(changes, t)
    ensures Names(changes[which], t) || Heard(Drop(changes, which), t)
  {
    var i :| 0 <= i < |changes| && Names(changes[i], t);
    if i != which {
      var j := if i < which then i else i - 1;
      assert Drop(changes, which)[j] == changes[i];
    }
  }

  lemma StoreKeeps(threadOf: (int, string) -> string, s: State, news: set<Target>, change: Change)
    requires Sound(threadOf, s) && Allowed(threadOf, s, Step.Store(news, change))
    ensures var after := After(threadOf, s, Step.Store(news, change));
            Sound(threadOf, after) && (Watched(s) ==> Watched(after))
  {
    hide DeskSound, SettleSound, OneAccount, Waits, Covers;
    var after := After(threadOf, s, Step.Store(news, change));
    forall k, t | Watched(s) && Waits(s.desk.book, k, t) ensures Covered(after, k, t) {
      if Heard(s.changes, t) {
        var i :| 0 <= i < |s.changes| && Names(s.changes[i], t);
        assert after.changes[i] == s.changes[i];
      } else if t in s.news && t !in news {
        assert after.changes[|s.changes|] == change;
      }
    }
  }

  lemma HearKeeps(threadOf: (int, string) -> string, s: State, which: nat)
    requires Sound(threadOf, s) && Allowed(threadOf, s, Hear(which))
    ensures var after := After(threadOf, s, Hear(which));
            Sound(threadOf, after) && (Watched(s) ==> Watched(after))
  {
    hide DeskSound, SettleSound, OneAccount, Waits, Covers, Settle, Drop, Heard;
    var after := After(threadOf, s, Hear(which));
    var change := s.changes[which];
    SettleAsks(s.settling, s.desk, change.account, change.threads);
    forall k, t | Watched(s) && Waits(s.desk.book, k, t) ensures Covered(after, k, t) {
      if Heard(s.changes, t) {
        HeardDropped(s.changes, which, t);
      } else if t !in s.news {
        var i :| 0 <= i < |s.settling| && Covers(s.settling[i], k, t);
        assert after.settling[i] == s.settling[i];
      }
    }
  }

  lemma AnnounceKeeps(threadOf: (int, string) -> string, s: State, step: Step)
    requires step.Announce? && Sound(threadOf, s) && Allowed(threadOf, s, step)
    ensures var after := After(threadOf, s, step); Sound(threadOf, after) && (Watched(s) ==> Watched(after))
  {
    hide DeskSound, SettleSound, Waits, Covers, Settle, Post, Deserving, Notices, Heard;
    var Announce(which, settings, viewed, tokens) := step;
    var rows, after := s.found[which], After(threadOf, s, step);
    assert forall i :: 0 <= i < |after.found| ==> after.found[i] == s.found[if i < which then i else i + 1];
    var messages := Deserving(rows, settings, viewed);
    assert OneAccount(threadOf, rows);
    var account := if rows == [] then 0 else rows[0].target.account;
    forall t | t in messages ensures Filed(threadOf, t) && t.account == account {
      DeservingExact(rows, settings, viewed, t);
    }
    if settings.notifications && messages != [] {
      assert messages[0] in messages;
      NoticesAnnounce(messages, settings.previews, settings.buttons);
      var notices := Notices(messages, settings.previews, settings.buttons);
      PostExact(s.desk, notices, tokens, messages);
      var desk := Post(s.desk, notices, tokens);
      forall i | 0 <= i < |s.settling| ensures SettleSound(desk, s.settling[i]) {
        SettleSoundMore(s.desk, desk, s.settling[i]);
      }
      SettleAsks(s.settling, desk, messages[0].account, Threads(messages));
      forall k, t | Watched(s) && Waits(desk.book, k, t) ensures Covered(after, k, t) {
        if Waits(s.desk.book, k, t) {
          assert Covered(s, k, t);
          if t !in s.news && !Heard(s.changes, t) {
            var i :| 0 <= i < |s.settling| && Covers(s.settling[i], k, t);
            assert after.settling[i] == s.settling[i];
          }
        } else {
          assert t.thread in Threads(messages);
        }
      }
    }
  }

  /** Whether mail that comes back with a reminder is still what its notification will say,
      or a change event that would take it back is still on its way. */
  ghost predicate Fresh(s: State, t: Target) {
    t in s.news || Heard(s.changes, t)
  }

  lemma AsksPosted(desk: Desk, settle: Settling, k: string, id: string)
    requires SettleSound(desk, settle)
    ensures Asks(settle.asked, k, id) ==> k in desk.posted
  {
  }

  lemma WaitsVisible(desk: Desk, k: string, t: Target)
    requires DeskSound(desk)
    ensures Waits(desk.book, k, t) ==> k in desk.visible
  {
  }

  /** A reminder is announced without a second look, so its notification is watched over
      exactly when the mail is still news, or its change is yet to be heard. */
  lemma RemindExact(threadOf: (int, string) -> string, s: State, which: nat, settings: Settings, token: string)
    requires Sound(threadOf, s) && Allowed(threadOf, s, Remind(which, settings, token))
    ensures var after := After(threadOf, s, Remind(which, settings, token));
            && Sound(threadOf, after)
            && (settings.notifications ==>
                  token in after.desk.visible && Waits(after.desk.book, token, s.returned[which]))
            && (Watched(s) ==> (Watched(after) <==> (settings.notifications ==> Fresh(s, s.returned[which]))))
  {
    hide DeskSound, SettleSound, OneAccount, Waits, Heard, PostOne;
    var after := After(threadOf, s, Remind(which, settings, token));
    assert forall i :: 0 <= i < |after.returned| ==> after.returned[i] == s.returned[if i < which then i else i + 1];
    var t := s.returned[which];
    if settings.notifications {
      var notice := Notices([t], settings.previews, settings.buttons)[0];
      assert notice.counted == [t];
      assert Notices([t], settings.previews, settings.buttons) == [notice];
      PostOneExact(s.desk, notice, token, [t]);
      assert after.desk == PostOne(s.desk, notice, token) by {
        assert [notice][1..] == [] && [token][1..] == [];
        assert Post(PostOne(s.desk, notice, token), [], []) == PostOne(s.desk, notice, token);
      }
      forall i | 0 <= i < |s.settling| ensures SettleSound(after.desk, s.settling[i]) {
        SettleSoundMore(s.desk, after.desk, s.settling[i]);
      }
      assert Waits(after.desk.book, token, t);
      WaitsVisible(after.desk, token, t);
      forall i | 0 <= i < |s.settling| ensures !Asks(s.settling[i].asked, token, t.message) {
        AsksPosted(s.desk, s.settling[i], token, t.message);
      }
      if Watched(s) && Fresh(s, t) {
        forall k, u | Waits(after.desk.book, k, u) ensures Covered(after, k, u) {
          assert Waits(s.desk.book, k, u) ==> Covered(s, k, u);
        }
      }
      assert Covered(after, token, t) <==> Fresh(s, t);
    } else {
      assert Watched(s) ==> Watched(after);
    }
  }

  lemma ReadStillKeeps(threadOf: (int, string) -> string, s: State, which: nat)
    requires Sound(threadOf, s) && Allowed(threadOf, s, ReadStill(which))
    ensures var after := After(threadOf, s, ReadStill(which));
            Sound(threadOf, after) && (Watched(s) ==> Watched(after))
  {
    hide Waits, Heard, OneAccount, Tidy;
    var after := After(threadOf, s, ReadStill(which));
    var settle, answered := s.settling[which], after.settling[which];
    assert DeskSound(after.desk);
    forall k, id, t | Asks(settle.asked, k, id) && t in s.desk.posted[k] && t.message == id && id !in answered.still
      ensures (k, t) in after.desk.seen {
      AsksIds(settle.asked, k, id);
    }
    assert SettleSound(after.desk, answered);
    forall i | 0 <= i < |after.settling| && i != which ensures SettleSound(after.desk, after.settling[i]) {
      SettleSoundMore(s.desk, after.desk, s.settling[i]);
    }
    forall k, t | Watched(s) && Waits(s.desk.book, k, t) ensures Covered(after, k, t) {
      assert Covered(s, k, t);
      if t !in s.news && !Heard(s.changes, t) {
        var i :| 0 <= i < |s.settling| && Covers(s.settling[i], k, t);
        if i == which {
          StillHeld(threadOf, s.news, settle.account, IdsOf(settle.asked), t);
          assert Covers(answered, k, t);
        } else {
          assert after.settling[i] == s.settling[i];
        }
      }
    }
  }

  lemma StillHeld(threadOf: (int, string) -> string, news: set<Target>, account: int, ids: set<string>, t: Target)
    requires Filed(threadOf, t) && t.account == account && forall u :: u in news ==> Filed(threadOf, u)
    ensures t.message in UnreadInInbox(news, account, ids) ==> t in news
  {
    if t.message in UnreadInInbox(news, account, ids) {
      var u :| u in news && u.account == account && u.message == t.message;
    }
  }

  lemma AsksIds(asked: seq<Asked>, k: string, id: string)
    requires Asks(asked, k, id)
    ensures id in IdsOf(asked)
  {
    var i :| 0 <= i < |asked| && asked[i].token == k && id in asked[i].ids;
    assert asked[i] in asked;
  }

  lemma DropSize<T>(all: seq<T>, which: nat)
    requires which < |all|
    ensures |Drop(all, which)| == |all| - 1
  {
  }

  lemma DropAt<T>(all: seq<T>, which: nat, i: nat)
    requires which < |all| && i < |all| - 1
    ensures |Drop(all, which)| == |all| - 1 && Drop(all, which)[i] == all[if i < which then i else i + 1]
  {
  }

  lemma WithdrawingKeeps(threadOf: (int, string) -> string, s: State, which: nat)
    requires Sound(threadOf, s) && Allowed(threadOf, s, Withdrawing(which))
    ensures var after := After(threadOf, s, Withdrawing(which));
            Sound(threadOf, after) && (Watched(s) ==> Watched(after))
  {
    hide DeskSound, Waits, Heard, OneAccount, Withdraw, Drop, Asks;
    var after := After(threadOf, s, Withdrawing(which));
    var settle := s.settling[which];
    assert SettleSound(s.desk, settle);
    WithdrawExact(s.desk, settle.asked, settle.still);
    DropSize(s.settling, which);
    forall i | 0 <= i < |after.settling| ensures SettleSound(after.desk, after.settling[i]) {
      DropAt(s.settling, which, i);
      SettleSoundMore(s.desk, after.desk, s.settling[if i < which then i else i + 1]);
    }
    forall k, t | Watched(s) && Waits(after.desk.book, k, t) ensures Covered(after, k, t) {
      assert Covered(s, k, t);
      if t !in s.news && !Heard(s.changes, t) {
        CoversDropped(s.settling, which, k, t);
      }
    }
  }

  /** Every reminder in the step is announced while its mail is fresh. */
  ghost predicate Timely(s: State, step: Step) {
    step.Remind? && step.which < |s.returned| && step.settings.notifications ==> Fresh(s, s.returned[step.which])
  }

  lemma ReadNewKeeps(threadOf: (int, string) -> string, s: State, rows: seq<Row>)
    requires Sound(threadOf, s) && Allowed(threadOf, s, ReadNew(rows))
    ensures var after := After(threadOf, s, ReadNew(rows));
            Sound(threadOf, after) && (Watched(s) <==> Watched(after))
  {
    hide DeskSound, SettleSound, Waits, Covers, Heard;
  }

  lemma ReturnKeeps(threadOf: (int, string) -> string, s: State, target: Target)
    requires Sound(threadOf, s) && Allowed(threadOf, s, Return(target))
    ensures var after := After(threadOf, s, Return(target));
            Sound(threadOf, after) && (Watched(s) <==> Watched(after))
  {
    hide DeskSound, SettleSound, OneAccount, Waits, Covers, Heard;
  }

  lemma StepKeeps(threadOf: (int, string) -> string, s: State, step: Step)
    requires Sound(threadOf, s) && Allowed(threadOf, s, step)
    ensures Sound(threadOf, After(threadOf, s, step))
    ensures Watched(s) ==> (Watched(After(threadOf, s, step)) <==> Timely(s, step))
  {
    hide Sound, Watched, Fresh;
    match step
    case Store(news, change) => StoreKeeps(threadOf, s, news, change);
    case Hear(which) => HearKeeps(threadOf, s, which);
    case ReadNew(rows) => ReadNewKeeps(threadOf, s, rows);
    case Announce(_, _, _, _) => AnnounceKeeps(threadOf, s, step);
    case Return(target) => ReturnKeeps(threadOf, s, target);
    case Remind(which, settings, token) => RemindExact(threadOf, s, which, settings, token);
    case ReadStill(which) => ReadStillKeeps(threadOf, s, which);
    case Withdrawing(which) => WithdrawingKeeps(threadOf, s, which);
  }

  ghost predicate Runs(threadOf: (int, string) -> string, s: State, steps: seq<Step>)
    decreases |steps|
  {
    steps == [] || (Allowed(threadOf, s, steps[0]) && Runs(threadOf, After(threadOf, s, steps[0]), steps[1..]))
  }

  ghost function Run(threadOf: (int, string) -> string, s: State, steps: seq<Step>): State
    requires Runs(threadOf, s, steps)
    decreases |steps|
  {
    if steps == [] then s else Run(threadOf, After(threadOf, s, steps[0]), steps[1..])
  }

  ghost predicate AllTimely(threadOf: (int, string) -> string, s: State, steps: seq<Step>)
    requires Runs(threadOf, s, steps)
    decreases |steps|
  {
    steps == [] || (Timely(s, steps[0]) && AllTimely(threadOf, After(threadOf, s, steps[0]), steps[1..]))
  }

  lemma {:induction false} RunKeeps(threadOf: (int, string) -> string, s: State, steps: seq<Step>)
    requires Runs(threadOf, s, steps) && Sound(threadOf, s)
    ensures Sound(threadOf, Run(threadOf, s, steps))
    ensures Watched(s) && AllTimely(threadOf, s, steps) ==> Watched(Run(threadOf, s, steps))
    decreases |steps|
  {
    hide Sound, Watched, Allowed, After, Timely;
    if steps != [] {
      StepKeeps(threadOf, s, steps[0]);
      RunKeeps(threadOf, After(threadOf, s, steps[0]), steps[1..]);
    }
  }

  lemma StartSound(threadOf: (int, string) -> string)
    ensures Sound(threadOf, START) && Watched(START)
  {
  }

  /** Nothing that would look at the mail again is on its way. */
  predicate Quiet(s: State) {
    s.changes == [] && s.settling == []
  }

  /** In every run whose reminders are announced in time, each notification left when the
      system is quiet waits on mail, and all of it is still unread in the Inbox. */
  lemma NoneOutlivesItsMail(threadOf: (int, string) -> string, steps: seq<Step>, token: string)
    requires Runs(threadOf, START, steps) && AllTimely(threadOf, START, steps)
    requires var s := Run(threadOf, START, steps); Quiet(s) && token in s.desk.visible
    ensures var s := Run(threadOf, START, steps);
            && (exists t :: Waits(s.desk.book, token, t))
            && (forall t :: Waits(s.desk.book, token, t) ==> t in s.news)
  {
    var s := Run(threadOf, START, steps);
    StartSound(threadOf);
    RunKeeps(threadOf, START, steps);
    var shown := s.desk.book.shown[token];
    var waiting := shown.pending[0];
    assert Waits(s.desk.book, token, Target(shown.account, waiting.thread, waiting.message));
    forall t | Waits(s.desk.book, token, t) ensures t in s.news {
      assert Covered(s, token, t);
    }
  }

  /** In every run, a notification that is gone was pushed out by newer ones, or the store
      was read after it was posted and held none of its messages unread in the Inbox. */
  lemma NoneGoesUnseen(threadOf: (int, string) -> string, steps: seq<Step>, token: string, t: Target)
    requires Runs(threadOf, START, steps)
    requires var desk := Run(threadOf, START, steps).desk;
             token in desk.posted && t in desk.posted[token] && token !in desk.visible
    ensures var desk := Run(threadOf, START, steps).desk; token in desk.evicted || (token, t) in desk.seen
  {
    StartSound(threadOf);
    RunKeeps(threadOf, START, steps);
  }

  /** At most two hundred notifications are on screen, each one the app answers for. */
  lemma FewOnScreen(threadOf: (int, string) -> string, steps: seq<Step>)
    requires Runs(threadOf, START, steps)
    ensures var desk := Run(threadOf, START, steps).desk;
            desk.visible == desk.book.shown.Keys && |desk.visible| <= 200
  {
    StartSound(threadOf);
    RunKeeps(threadOf, START, steps);
    var desk := Run(threadOf, START, steps).desk;
    OrderSize(desk.book.order);
    assert desk.visible == set k | k in desk.book.order;
  }

  lemma {:induction false} OrderSize(order: seq<string>)
    ensures |set k | k in order| <= |order|
  {
    if order != [] {
      OrderSize(order[1..]);
      assert order == [order[0]] + order[1..];
      assert (set k | k in order) == {order[0]} + set k | k in order[1..];
    }
  }

  // A reminder announced late.

  const LATE := Target(1, "t", "m")

  const LATE_STEPS: seq<Step> := [
    Step.Store({LATE}, Change(1, {"t"})), Hear(0), Return(LATE),
    Step.Store({}, Change(1, {"t"})), Hear(0),
    Remind(0, Settings(true, false, true, []), "token")]

  /** Mail read between coming back with its reminder and being announced, with its change
      heard in between, leaves a notification nothing will take back. */
  lemma ReminderOutlivesItsMail(threadOf: (int, string) -> string)
    requires threadOf(1, "m") == "t"
    ensures Runs(threadOf, START, LATE_STEPS)
    ensures var s := Run(threadOf, START, LATE_STEPS);
            Quiet(s) && "token" in s.desk.visible && Waits(s.desk.book, "token", LATE) && LATE !in s.news
  {
    hide Waits, Heard, Watched, PostOne, Post, DeskSound;
    StartSound(threadOf);
    var s1 := START.(news := {LATE}, changes := [Change(1, {"t"})]);
    var s2 := START.(news := {LATE});
    var s3 := s2.(returned := [LATE]);
    var s4 := s3.(news := {}, changes := [Change(1, {"t"})]);
    var s5 := s3.(news := {});
    var s6 := After(threadOf, s5, LATE_STEPS[5]);
    RemindExact(threadOf, s5, 0, Settings(true, false, true, []), "token");
    StepsOne(threadOf, s5, LATE_STEPS[5], [], s6);
    StepsOne(threadOf, s4, LATE_STEPS[4], LATE_STEPS[5..], s5);
    StepsOne(threadOf, s3, LATE_STEPS[3], LATE_STEPS[4..], s4);
    StepsOne(threadOf, s2, LATE_STEPS[2], LATE_STEPS[3..], s3);
    StepsOne(threadOf, s1, LATE_STEPS[1], LATE_STEPS[2..], s2);
    StepsOne(threadOf, START, LATE_STEPS[0], LATE_STEPS[1..], s1);
  }

  lemma StepsOne(threadOf: (int, string) -> string, s: State, first: Step, rest: seq<Step>, next: State)
    requires Allowed(threadOf, s, first) && After(threadOf, s, first) == next && Runs(threadOf, next, rest)
    ensures Runs(threadOf, s, [first] + rest)
    ensures Run(threadOf, s, [first] + rest) == Run(threadOf, next, rest)
  {
    assert ([first] + rest)[1..] == rest;
  }

  // The app's own steps, on the record and the screen it changes in place.

  class App {
    const issued: Issued
    var visible: set<string>
    var settling: seq<Settling>
    ghost var posted: map<string, seq<Target>>
    ghost var evicted: set<string>
    ghost var seen: set<(string, Target)>

    ghost function Contents(): Desk
      reads this, issued
    {
      Desk(issued.Contents(), visible, posted, evicted, seen)
    }

    constructor ()
      ensures fresh(issued) && Contents() == START.desk && settling == []
    {
      issued := new Issued();
      visible, settling := {}, [];
      posted, evicted, seen := map[], {}, {};
    }

    /** Posts the notifications for `messages`, each under a token of its own. */
    method AnnounceMail(messages: seq<Target>, previews: bool, buttons: seq<Button>, tokens: seq<string>)
      requires |Notices(messages, previews, buttons)| <= |tokens|
      modifies this`visible, this`posted, this`evicted, issued
      ensures Contents() == Post(old(Contents()), Notices(messages, previews, buttons), tokens)
    {
      hide WithIssued, WithSummary, Notices;
      var notices := Notices(messages, previews, buttons);
      var i := 0;
      while i < |notices|
        invariant 0 <= i <= |notices|
        invariant Post(Contents(), notices[i..], tokens[i..]) == Post(old(Contents()), notices, tokens)
      {
        ghost var before := Contents();
        var notice, token := notices[i], tokens[i];
        var pushedOut: Option<string>;
        match notice.target {
          case Some(target) => pushedOut := issued.Issue(token, target, notice.buttons);
          case None => pushedOut := issued.IssueSummary(token, notice.counted);
        }
        if pushedOut.Some? {
          visible := visible - {pushedOut.value};
          evicted := evicted + {pushedOut.value};
        }
        visible := visible + {token};
        posted := posted[token := notice.counted];
        assert Contents() == PostOne(before, notice, token);
        assert notices[i..][1..] == notices[i + 1..] && tokens[i..][1..] == tokens[i + 1..];
        i := i + 1;
      }
    }

    method SettleNotifications(account: int, threads: set<string>)
      modifies this`settling
      ensures settling == Settle(old(settling), issued.Contents(), account, threads)
    {
      var asked := issued.WaitingIn(account, threads);
      if asked == [] {
        return;
      }
      settling := settling + [Asking(account, asked)];
    }

    /** What a settle does once the store has answered. */
    method WithdrawSettled(asked: seq<Asked>, still: set<string>)
      modifies this`visible, issued
      ensures Contents() == Withdraw(old(Contents()), asked, still)
    {
      hide Settled;
      var i := 0;
      while i < |asked|
        invariant 0 <= i <= |asked|
        invariant Withdraw(Contents(), asked[i..], still) == Withdraw(old(Contents()), asked, still)
      {
        var gone := issued.Settle(asked[i].token, SettledAmong(asked[i].ids, still));
        if gone {
          visible := visible - {asked[i].token};
        }
        assert asked[i..][1..] == asked[i + 1..];
        i := i + 1;
      }
    }

    /** Announces what deserves it among `rows`, as the store held them when read, then
        takes the second look. */
    method AnnounceFound(rows: seq<Row>, settings: Settings, viewed: Option<Target>, tokens: seq<string>)
      requires |Notices(Deserving(rows, settings, viewed), settings.previews, settings.buttons)| <= |tokens|
      modifies this, issued
      ensures var before := State({}, [], [], [], old(settling), old(Contents()));
              var after := Announced(before, rows, settings, viewed, tokens);
              Contents() == after.desk && settling == after.settling
    {
      if !settings.notifications {
        return;
      }
      var messages := Deserving(rows, settings, viewed);
      if messages == [] {
        return;
      }
      AnnounceMail(messages, settings.previews, settings.buttons, tokens);
      SettleNotifications(messages[0].account, Threads(messages));
    }
  }
}
