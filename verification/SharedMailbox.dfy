/** Removing an account, attaching and starting a shared mailbox, signing in and keeping a
    renewed token: steps under one turn lock, between steps of others that take no turn. */
module SharedMailbox {
  import opened Text

  datatype Provider = Gmail | Microsoft | Imap | Pop3 | Jmap | CalDav

  datatype AccountState = Bootstrapping | Ready | NeedsReauth

  /** An account as somebody read it, which its row may have outlived. */
  datatype Account = Account(id: int, email: string, provider: Provider)

  /** `session` names the sign-in whose renewed tokens may still be kept. */
  datatype Row = Row(email: string, provider: Provider, name: string, state: AccountState, session: Option<nat>)

  /** What runs for an account: prepared services name the mailbox and the owner they sign in as. */
  datatype Service = Ordinary | Prepared(account: Account, owner: int)

  /** The rows, the owner of each shared mailbox, the Microsoft tokens kept (each known by the
      address that signed in), and what runs. A removed id can come back with another row. */
  datatype Store = Store(accounts: map<int, Row>, links: map<int, int>, tokens: map<int, string>,
                         running: map<int, Service>)

  datatype Phase = Waits | Holds | Checked | Stopped | Deleted | Written

  datatype Task =
    | Removing(account: Account)
    | Attaching(owner: int, ownerEmail: string, address: string)
    | Starting(account: Account, owner: int)
    | SigningIn(address: string, name: string, held: Option<int>, again: bool)
    | Rotating(id: int, session: nat, address: string)

  datatype Job = Live(task: Task, phase: Phase) | Finished | Refused

  datatype State = State(store: Store, turn: Option<nat>, jobs: map<nat, Job>, sessions: nat)

  const START := State(Store(map[], map[], map[], map[]), None, map[], 0)

  const WORK := "Microsoft 365"

  // The store.

  predicate SameAddress(a: string, b: string) {
    Lower(a) == Lower(b)
  }

  ghost predicate Taken(accounts: map<int, Row>, address: string) {
    exists id :: id in accounts && SameAddress(accounts[id].email, address)
  }

  predicate Current(store: Store, account: Account) {
    && account.id in store.accounts
    && SameAddress(store.accounts[account.id].email, account.email)
    && store.accounts[account.id].provider == account.provider
  }

  predicate Attached(store: Store, owner: int) {
    exists a :: a in store.links && store.links[a] == owner
  }

  /** The row a prepared mailbox starts for: the same id and address, Microsoft's, and
      linked to the owner it was prepared with. */
  predicate Matches(store: Store, account: Account, owner: int) {
    && account.id in store.accounts
    && SameAddress(store.accounts[account.id].email, account.email)
    && store.accounts[account.id].provider == Microsoft
    && account.id in store.links && store.links[account.id] == owner
  }

  /** A Microsoft account that signs in itself. */
  predicate Primary(store: Store, id: int) {
    id in store.accounts && store.accounts[id].provider == Microsoft && id !in store.links
  }

  /** Deleting a row takes its own link with it, and is refused while it owns one. */
  function Delete(store: Store, id: int): Option<Store> {
    if Attached(store, id) then None
    else Some(store.(accounts := store.accounts - {id}, links := store.links - {id}))
  }

  function Stop(store: Store, id: int): Store {
    store.(running := store.running - {id})
  }

  function Forget(store: Store, account: Account): Store {
    if account.provider == Microsoft then store.(tokens := store.tokens - {account.id}) else store
  }

  function Run(store: Store, id: int, service: Service): Store {
    store.(running := store.running[id := service])
  }

  function SetState(store: Store, id: int, state: AccountState): Store
    requires id in store.accounts
  {
    store.(accounts := store.accounts[id := store.accounts[id].(state := state)])
  }

  // Steps.

  /** `id` in a step that advances a job is the row its query answers, or the id its insert
      gives; `kept` is whether the keyring took the token. */
  datatype Step =
    | BeginRemove(job: nat, account: Account)
    | BeginAttach(job: nat, owner: int, address: string)
    | BeginRestart(job: nat, owner: int, id: int)
    | BeginSignIn(job: nat, address: string, name: string)
    | BeginRotate(job: nat, id: int)
    | Advance(job: nat, id: int, kept: bool)
    | AddOther(id: int, email: string, provider: Provider)
    | StartOrdinary(id: int)
    | StopOrdinary(id: int)
    | NoteState(id: int, state: AccountState)

  predicate HoldsTurn(job: Job) {
    job.Live? && job.phase != Waits
  }

  /** Which phases a task has, and what the store may answer it. */
  ghost predicate CanAdvance(s: State, job: Job, id: int) {
    job.Live? &&
    match job.task
    case Removing(_) => job.phase != Written
    case Attaching(_, _, _) => job.phase in {Waits, Holds} && id !in s.store.accounts
    case Starting(_, _) => job.phase in {Waits, Holds, Checked}
    case SigningIn(address, _, held, _) =>
      && job.phase in {Waits, Holds, Checked, Written} && (job.phase == Written ==> held.Some?)
      && (job.phase in {Holds, Checked} ==>
            if Taken(s.store.accounts, address)
            then id in s.store.accounts && SameAddress(s.store.accounts[id].email, address)
            else id !in s.store.accounts)
    case Rotating(_, _, _) => job.phase in {Waits, Holds, Checked}
  }

  ghost predicate Allowed(s: State, step: Step) {
    match step
    case BeginRemove(job, _) => job !in s.jobs
    case BeginAttach(job, _, _) => job !in s.jobs
    case BeginRestart(job, owner, id) =>
      job !in s.jobs && id in s.store.accounts && id in s.store.links && s.store.links[id] == owner
    case BeginSignIn(job, _, _) => job !in s.jobs
    case BeginRotate(job, id) =>
      job !in s.jobs && s.turn == None && id in s.store.accounts && id in s.store.tokens
    case Advance(job, id, _) =>
      && job in s.jobs && CanAdvance(s, s.jobs[job], id)
      && (s.jobs[job].phase == Waits ==> s.turn == None)
    case AddOther(id, _, provider) => id !in s.store.accounts && provider != Microsoft
    case StartOrdinary(_) => true
    case StopOrdinary(_) => true
    case NoteState(id, _) => id in s.store.accounts
  }

  /** A job takes the turn. */
  function Take(s: State, job: nat, task: Task): State {
    s.(jobs := s.jobs[job := Live(task, Holds)], turn := Some(job))
  }

  /** A job goes on to its next phase, keeping the turn. */
  function Next(s: State, job: nat, task: Task, phase: Phase): State {
    s.(jobs := s.jobs[job := Live(task, phase)])
  }

  /** A job ends, or waits for another turn, and gives this one back. */
  function End(s: State, job: nat, last: Job): State {
    s.(jobs := s.jobs[job := last], turn := None)
  }

  predicate On(s: State, job: nat, task: Task) {
    job in s.jobs && s.jobs[job].Live? && s.jobs[job].task == task
  }

  ghost function Remove(s: State, job: nat, account: Account): State
    requires On(s, job, Removing(account)) && CanAdvance(s, s.jobs[job], 0)
  {
    var me, store := Removing(account), s.store;
    match s.jobs[job].phase
    case Waits => Take(s, job, me)
    case Holds =>
      if !Current(store, account) || Attached(store, account.id) then End(s, job, Refused)
      else Next(s, job, me, Checked)
    case Checked => Next(s, job, me, Stopped).(store := Stop(store, account.id))
    case Stopped =>
      (match Delete(store, account.id)
       case None => End(s, job, Refused)
       case Some(without) => Next(s, job, me, Deleted).(store := without))
    case Deleted => End(s, job, Finished).(store := Forget(store, account))
  }

  /** Under the turn the owner's row is checked again, as its id may have been reused
      while the mailbox was probed. */
  ghost function Attach(s: State, job: nat, me: Task, id: int): State
    requires me.Attaching? && On(s, job, me) && CanAdvance(s, s.jobs[job], id)
  {
    var Attaching(owner, ownerEmail, address) := me;
    var store := s.store;
    if s.jobs[job].phase == Waits then Take(s, job, me)
    else if owner !in store.accounts || !SameAddress(store.accounts[owner].email, ownerEmail)
         || !Primary(store, owner) || Taken(store.accounts, address)
    then End(s, job, Refused)
    else
      var row := Row(address, Microsoft, WORK, Bootstrapping, None);
      End(s, job, Live(Starting(Account(id, address, Microsoft), owner), Waits))
        .(store := store.(accounts := store.accounts[id := row], links := store.links[id := owner]))
  }

  ghost function StartShared(s: State, job: nat, account: Account, owner: int): State
    requires On(s, job, Starting(account, owner)) && CanAdvance(s, s.jobs[job], 0)
  {
    var me, store := Starting(account, owner), s.store;
    match s.jobs[job].phase
    case Waits => Take(s, job, me)
    case Holds =>
      if !Matches(store, account, owner) then End(s, job, Refused)
      else Next(s, job, me, Checked).(store := SetState(store, account.id, Ready))
    case Checked => End(s, job, Finished).(store := Run(store, account.id, Prepared(account, owner)))
  }

  /** The row an insert writes for a sign-in: new, or the one the address has, which signing
      in `again` ends needing. */
  function SignedIn(s: State, address: string, name: string, id: int, again: bool): Row {
    if id !in s.store.accounts then Row(address, Microsoft, name, Bootstrapping, Some(s.sessions))
    else
      var known := s.store.accounts[id];
      known.(name := name, session := Some(s.sessions),
             state := if again then Ready else known.state)
  }

  ghost function SignIn(s: State, job: nat, me: Task, id: int, kept: bool): State
    requires me.SigningIn? && On(s, job, me) && CanAdvance(s, s.jobs[job], id)
  {
    var SigningIn(address, name, held, again) := me;
    var store := s.store;
    match s.jobs[job].phase
    case Waits => Take(s, job, me)
    case Holds =>
      if id !in store.accounts then Next(s, job, SigningIn(address, name, None, false), Checked)
      else if !Primary(store, id) || !kept then End(s, job, Refused)
      else Next(s, job, SigningIn(address, name, Some(id), store.accounts[id].state == NeedsReauth), Checked)
             .(store := store.(tokens := store.tokens[id := address]))
    case Checked =>
      if id in store.accounts && !Primary(store, id) then End(s, job, Refused)
      else
        var row := SignedIn(s, address, name, id, again);
        var written := s.(store := store.(accounts := store.accounts[id := row]), sessions := s.sessions + 1);
        if held.Some? then End(written, job, Finished)
        else Next(written, job, SigningIn(address, name, Some(id), again), Written)
    case Written =>
      if kept then End(s, job, Finished).(store := store.(tokens := store.tokens[held.value := address]))
      else
        match Delete(store, held.value)
        case None => End(s, job, Refused)
        case Some(without) => End(s, job, Refused).(store := without)
  }

  ghost function Rotate(s: State, job: nat, me: Task): State
    requires me.Rotating? && On(s, job, me) && CanAdvance(s, s.jobs[job], 0)
  {
    var Rotating(id, session, address) := me;
    var store := s.store;
    match s.jobs[job].phase
    case Waits => Take(s, job, me)
    case Holds =>
      if id !in store.accounts || store.accounts[id].session != Some(session) then End(s, job, Refused)
      else Next(s, job, me, Checked)
    case Checked => End(s, job, Finished).(store := store.(tokens := store.tokens[id := address]))
  }

  /** A job that begins, and holds nothing yet. */
  function Begin(s: State, job: nat, task: Task): State {
    Next(s, job, task, Waits)
  }

  ghost function After(s: State, step: Step): State
    requires Allowed(s, step)
  {
    var store := s.store;
    match step
    case BeginRemove(job, account) => Begin(s, job, Removing(account))
    case BeginAttach(job, owner, address) =>
      if !Primary(store, owner) || store.accounts[owner].name != WORK then s.(jobs := s.jobs[job := Refused])
      else Begin(s, job, Attaching(owner, store.accounts[owner].email, address))
    case BeginRestart(job, owner, id) =>
      Begin(s, job, Starting(Account(id, store.accounts[id].email, store.accounts[id].provider), owner))
    case BeginSignIn(job, address, name) => Begin(s, job, SigningIn(address, name, None, false))
    case BeginRotate(job, id) =>
      var known := store.accounts[id];
      if known.session.Some? then Begin(s, job, Rotating(id, known.session.value, store.tokens[id]))
      else Begin(s, job, Rotating(id, s.sessions, store.tokens[id]))
             .(store := store.(accounts := store.accounts[id := known.(session := Some(s.sessions))]),
               sessions := s.sessions + 1)
    case Advance(job, id, kept) =>
      var me := s.jobs[job].task;
      (match me
       case Removing(account) => Remove(s, job, account)
       case Attaching(_, _, _) => Attach(s, job, me, id)
       case Starting(account, owner) => StartShared(s, job, account, owner)
       case SigningIn(_, _, _, _) => SignIn(s, job, me, id, kept)
       case Rotating(_, _, _) => Rotate(s, job, me))
    case AddOther(id, email, provider) =>
      s.(store := store.(accounts := store.accounts[id := Row(email, provider, "", Bootstrapping, None)]))
    case StartOrdinary(id) => s.(store := Run(store, id, Ordinary))
    case StopOrdinary(id) => s.(store := Stop(store, id))
    case NoteState(id, state) => s.(store := SetState(store, id, state))
  }

  // What every run keeps.

  ghost predicate LockSound(s: State) {
    && (s.turn.Some? ==> s.turn.value in s.jobs)
    && (forall j :: j in s.jobs ==> (HoldsTurn(s.jobs[j]) <==> s.turn == Some(j)))
  }

  /** Every shared mailbox is Microsoft's and its owner is there, signing in for itself. */
  ghost predicate LinksSound(store: Store) {
    forall a :: a in store.links ==>
      && a in store.accounts && store.accounts[a].provider == Microsoft
      && Primary(store, store.links[a])
  }

  /** Prepared services run only for the row they were prepared for. */
  ghost predicate RunningSound(store: Store) {
    forall id :: id in store.running && store.running[id].Prepared? ==>
      && store.running[id].account.id == id
      && Matches(store, store.running[id].account, store.running[id].owner)
  }

  predicate Home(store: Store, id: int, address: string) {
    Primary(store, id) && SameAddress(store.accounts[id].email, address)
  }

  /** The removal that is about to forget the tokens of `id`. */
  predicate Forgetting(job: Job, id: int) {
    job.Live? && job.task.Removing? && job.phase == Deleted && job.task.account.id == id
    && job.task.account.provider == Microsoft
  }

  /** Each token is kept under the account that signed in, or about to be forgotten. */
  ghost predicate TokensSound(s: State) {
    forall id :: id in s.store.tokens ==>
      || Home(s.store, id, s.store.tokens[id])
      || (s.turn.Some? && s.turn.value in s.jobs && Forgetting(s.jobs[s.turn.value], id))
  }

  ghost predicate SessionsSound(s: State) {
    forall id :: id in s.store.accounts && s.store.accounts[id].session.Some? ==>
      s.store.accounts[id].session.value < s.sessions
  }

  /** What a job counts on while it holds the turn; a token on its way counts on its
      session naming no other account at any time. */
  ghost predicate JobSound(s: State, job: Job) {
    job.Live? ==>
    match job.task
    case Removing(account) =>
      && (job.phase in {Checked, Stopped} ==> Current(s.store, account) && !Attached(s.store, account.id))
      && (job.phase == Stopped ==> account.id !in s.store.running || s.store.running[account.id].Ordinary?)
    case Attaching(_, _, _) => true
    case Starting(account, owner) => job.phase == Checked ==> Matches(s.store, account, owner)
    case SigningIn(address, _, held, _) =>
      && (job.phase == Checked && held.Some? ==> Home(s.store, held.value, address))
      && (job.phase == Checked && held.None? ==> NoneMicrosoft(s.store.accounts, address))
      && (job.phase == Written ==> held.Some? && Home(s.store, held.value, address)
                                   && !Attached(s.store, held.value) && held.value !in s.store.tokens)
    case Rotating(id, session, address) =>
      && session < s.sessions
      && (id in s.store.accounts && s.store.accounts[id].session == Some(session) ==> Home(s.store, id, address))
      && (job.phase == Checked ==> id in s.store.accounts && s.store.accounts[id].session == Some(session))
  }

  ghost predicate NoneMicrosoft(accounts: map<int, Row>, address: string) {
    forall id :: id in accounts && SameAddress(accounts[id].email, address) ==> accounts[id].provider != Microsoft
  }

  ghost predicate Sound(s: State) {
    && LockSound(s) && LinksSound(s.store) && RunningSound(s.store) && TokensSound(s) && SessionsSound(s)
    && (forall j :: j in s.jobs ==> JobSound(s, s.jobs[j]))
  }

  lemma RemoveKeeps(s: State, job: nat, account: Account)
    requires Sound(s) && Allowed(s, Advance(job, 0, true)) && On(s, job, Removing(account))
    ensures Sound(Remove(s, job, account))
  {
    hide Lower, SameAddress, Sound, Remove;
    if s.jobs[job].phase in {Waits, Holds, Checked} {
      RemoveBegins(s, job, account);
    } else {
      RemoveEnds(s, job, account);
    }
  }

  /** Up to stopping what runs for the account. */
  lemma RemoveBegins(s: State, job: nat, account: Account)
    requires Sound(s) && Allowed(s, Advance(job, 0, true)) && On(s, job, Removing(account))
    requires s.jobs[job].phase in {Waits, Holds, Checked}
    ensures Sound(Remove(s, job, account))
  {
    hide Lower, SameAddress;
  }

  /** Deleting the row, and forgetting its tokens. */
  lemma RemoveEnds(s: State, job: nat, account: Account)
    requires Sound(s) && Allowed(s, Advance(job, 0, true)) && On(s, job, Removing(account))
    requires s.jobs[job].phase !in {Waits, Holds, Checked}
    ensures Sound(Remove(s, job, account))
  {
    hide Lower, SameAddress;
  }

  lemma AttachKeeps(s: State, job: nat, me: Task, id: int)
    requires Sound(s) && Allowed(s, Advance(job, id, true)) && me.Attaching? && On(s, job, me)
    ensures Sound(Attach(s, job, me, id))
  {
    hide Lower, SameAddress;
  }

  lemma StartSharedKeeps(s: State, job: nat, account: Account, owner: int)
    requires Sound(s) && Allowed(s, Advance(job, 0, true)) && On(s, job, Starting(account, owner))
    ensures Sound(StartShared(s, job, account, owner))
  {
    hide Lower, SameAddress;
  }

  /** Taking the turn, and keeping the token of an account that signs in again. */
  lemma SignInChecks(s: State, job: nat, me: Task, id: int, kept: bool)
    requires Sound(s) && Allowed(s, Advance(job, id, kept)) && me.SigningIn? && On(s, job, me)
    requires s.jobs[job].phase in {Waits, Holds}
    ensures Sound(SignIn(s, job, me, id, kept))
  {
    hide Lower;
    var after := SignIn(s, job, me, id, kept);
    assert LockSound(after) && TokensSound(after);
  }

  /** Writing the row of a sign-in to an address that has none. */
  lemma SignInAdds(s: State, job: nat, me: Task, id: int)
    requires Sound(s) && Allowed(s, Advance(job, id, true)) && me.SigningIn? && On(s, job, me)
    requires s.jobs[job].phase == Checked && id !in s.store.accounts
    ensures Sound(SignIn(s, job, me, id, true))
  {
    hide Lower;
    var store, after := s.store, SignIn(s, job, me, id, true);
    assert JobSound(s, s.jobs[job]) && me.held.None?;
    assert id !in store.tokens && !Attached(store, id);
    hide SameAddress;
    assert LockSound(after) && LinksSound(after.store) && RunningSound(after.store) && SessionsSound(after);
    assert TokensSound(after);
  }

  /** Writing the row of a sign-in to an address that has one. */
  lemma SignInAgain(s: State, job: nat, me: Task, id: int)
    requires Sound(s) && Allowed(s, Advance(job, id, true)) && me.SigningIn? && On(s, job, me)
    requires s.jobs[job].phase == Checked && id in s.store.accounts
    ensures Sound(SignIn(s, job, me, id, true))
  {
    hide Lower, SameAddress;
    var after := SignIn(s, job, me, id, true);
    assert JobSound(s, s.jobs[job]);
    assert Primary(s.store, id) ==> me.held.Some?;
    assert LockSound(after) && LinksSound(after.store) && RunningSound(after.store) && SessionsSound(after);
    assert TokensSound(after);
  }

  /** Keeping the token of a new row, or taking the row back. */
  lemma SignInEnds(s: State, job: nat, me: Task, id: int, kept: bool)
    requires Sound(s) && Allowed(s, Advance(job, id, kept)) && me.SigningIn? && On(s, job, me)
    requires s.jobs[job].phase == Written
    ensures Sound(SignIn(s, job, me, id, kept))
  {
    hide Lower, SameAddress;
    var store, after := s.store, SignIn(s, job, me, id, kept);
    assert JobSound(s, s.jobs[job]);
    assert LockSound(after) && LinksSound(after.store) && RunningSound(after.store);
  }

  lemma SignInKeeps(s: State, job: nat, me: Task, id: int, kept: bool)
    requires Sound(s) && Allowed(s, Advance(job, id, kept)) && me.SigningIn? && On(s, job, me)
    ensures Sound(SignIn(s, job, me, id, kept))
  {
    hide Lower, SameAddress, Sound;
    match s.jobs[job].phase {
      case Checked =>
        if id in s.store.accounts {
          SignInAgain(s, job, me, id);
        } else {
          SignInAdds(s, job, me, id);
        }
      case Written => SignInEnds(s, job, me, id, kept);
      case _ => SignInChecks(s, job, me, id, kept);
    }
  }

  lemma RotateKeeps(s: State, job: nat, me: Task)
    requires Sound(s) && Allowed(s, Advance(job, 0, true)) && me.Rotating? && On(s, job, me)
    ensures Sound(Rotate(s, job, me))
  {
    hide Lower, SameAddress;
  }

  lemma BeginKeeps(s: State, job: nat, task: Task)
    requires Sound(s) && job !in s.jobs
    requires task.Rotating? ==>
               && task.session < s.sessions
               && (task.id in s.store.accounts && s.store.accounts[task.id].session == Some(task.session) ==>
                     Home(s.store, task.id, task.address))
    ensures Sound(Begin(s, job, task))
  {
    hide Lower, SameAddress, LinksSound, RunningSound, Home;
  }

  /** Naming the session of a row that had none. */
  lemma SessionKeeps(s: State, id: int)
    requires Sound(s) && id in s.store.accounts && s.store.accounts[id].session == None
    ensures var named := s.store.accounts[id].(session := Some(s.sessions));
            Sound(s.(store := s.store.(accounts := s.store.accounts[id := named]), sessions := s.sessions + 1))
  {
    hide Lower, SameAddress;
  }

  lemma OthersKeep(s: State, step: Step)
    requires Sound(s) && Allowed(s, step)
    requires step.AddOther? || step.StartOrdinary? || step.StopOrdinary? || step.NoteState?
    ensures Sound(After(s, step))
  {
    hide Lower, SameAddress;
    match step
    case AddOther(id, _, _) => AddOtherKeeps(s, step);
    case StartOrdinary(id) =>
    case StopOrdinary(id) =>
    case NoteState(id, state) => NoteStateKeeps(s, step);
  }

  lemma AddOtherKeeps(s: State, step: Step)
    requires Sound(s) && Allowed(s, step) && step.AddOther?
    ensures Sound(After(s, step))
  {
    hide Lower, SameAddress;
  }

  lemma NoteStateKeeps(s: State, step: Step)
    requires Sound(s) && Allowed(s, step) && step.NoteState?
    ensures Sound(After(s, step))
  {
    hide Lower, SameAddress;
  }

  lemma RefusedKeeps(s: State, job: nat)
    requires Sound(s) && job !in s.jobs
    ensures Sound(s.(jobs := s.jobs[job := Refused]))
  {
    hide Lower, SameAddress, LinksSound, RunningSound, Home;
  }

  /** With no turn taken every token is home, and every session is known. */
  lemma TokenHome(s: State, id: int)
    requires Sound(s) && s.turn == None && id in s.store.tokens
    ensures Home(s.store, id, s.store.tokens[id])
    ensures s.store.accounts[id].session.Some? ==> s.store.accounts[id].session.value < s.sessions
  {
  }

  lemma StepKeeps(s: State, step: Step)
    requires Sound(s) && Allowed(s, step)
    ensures Sound(After(s, step))
  {
    hide Lower, SameAddress, Remove, Attach, StartShared, SignIn, Rotate, Sound;
    match step
    case BeginRemove(job, account) => BeginKeeps(s, job, Removing(account));
    case BeginAttach(job, owner, address) =>
      if !Primary(s.store, owner) || s.store.accounts[owner].name != WORK {
        RefusedKeeps(s, job);
      } else {
        BeginKeeps(s, job, Attaching(owner, s.store.accounts[owner].email, address));
      }
    case BeginRestart(job, owner, id) =>
      BeginKeeps(s, job, Starting(Account(id, s.store.accounts[id].email, s.store.accounts[id].provider), owner));
    case BeginSignIn(job, address, name) => BeginKeeps(s, job, SigningIn(address, name, None, false));
    case BeginRotate(job, id) =>
      var known := s.store.accounts[id];
      TokenHome(s, id);
      if known.session.Some? {
        BeginKeeps(s, job, Rotating(id, known.session.value, s.store.tokens[id]));
      } else {
        SessionKeeps(s, id);
        var named := s.store.(accounts := s.store.accounts[id := known.(session := Some(s.sessions))]);
        BeginKeeps(s.(store := named, sessions := s.sessions + 1), job, Rotating(id, s.sessions, s.store.tokens[id]));
      }
    case Advance(job, id, kept) =>
      var me := s.jobs[job].task;
      match me {
       case Removing(account) => RemoveKeeps(s, job, account);
       case Attaching(_, _, _) => AttachKeeps(s, job, me, id);
       case Starting(account, owner) => StartSharedKeeps(s, job, account, owner);
       case SigningIn(_, _, _, _) => SignInKeeps(s, job, me, id, kept);
       case Rotating(_, _, _) => RotateKeeps(s, job, me);
      }
    case AddOther(_, _, _) => OthersKeep(s, step);
    case StartOrdinary(_) => OthersKeep(s, step);
    case StopOrdinary(_) => OthersKeep(s, step);
    case NoteState(_, _) => OthersKeep(s, step);
  }

  ghost predicate Runs(s: State, steps: seq<Step>)
    decreases |steps|
  {
    steps == [] || (Allowed(s, steps[0]) && Runs(After(s, steps[0]), steps[1..]))
  }

  ghost function Reached(s: State, steps: seq<Step>): State
    requires Runs(s, steps)
    decreases |steps|
  {
    if steps == [] then s else Reached(After(s, steps[0]), steps[1..])
  }

  lemma {:induction false} RunKeeps(s: State, steps: seq<Step>)
    requires Runs(s, steps) && Sound(s)
    ensures Sound(Reached(s, steps))
    decreases |steps|
  {
    hide Sound, Allowed, After;
    if steps != [] {
      StepKeeps(s, steps[0]);
      RunKeeps(After(s, steps[0]), steps[1..]);
    }
  }

  // What follows for every run.

  /** Prepared services run only for a row with the id, address and owner link they were
      prepared for, though ids are reused; and every owner is there. */
  lemma PreparedRunsForItsRow(steps: seq<Step>, id: int)
    requires Runs(START, steps)
    requires var store := Reached(START, steps).store; id in store.running && store.running[id].Prepared?
    ensures var store := Reached(START, steps).store;
            var Prepared(account, owner) := store.running[id];
            && account.id == id && id in store.accounts && store.accounts[id].provider == Microsoft
            && Lower(store.accounts[id].email) == Lower(account.email)
            && id in store.links && store.links[id] == owner
            && owner in store.accounts && store.accounts[owner].provider == Microsoft && owner !in store.links
  {
    RunKeeps(START, steps);
    hide After, Allowed, Lower;
  }

  /** What becomes of the owner of `a` in a step: its row and what it runs stay. */
  ghost predicate OwnerStays(before: Store, after: Store, a: int) {
    a in before.links && before.links[a] in before.accounts &&
    var owner := before.links[a];
    && Primary(after, owner) && after.accounts[owner].email == before.accounts[owner].email
    && (owner in before.running ==> owner in after.running)
  }

  predicate RemovedBy(s: State, step: Step, a: int) {
    step.Advance? && step.job in s.jobs && s.jobs[step.job].Live? && s.jobs[step.job].task.Removing?
    && s.jobs[step.job].task.account.id == a
  }

  /** While a shared mailbox links to it, no step of a removal or a sign-in stops an
      account or deletes its row, and only the mailbox's own removal unlinks it. */
  lemma OwnerKept(steps: seq<Step>, step: Step, a: int)
    requires Runs(START, steps) && Allowed(Reached(START, steps), step)
    requires a in Reached(START, steps).store.links && step != StopOrdinary(Reached(START, steps).store.links[a])
    ensures var s := Reached(START, steps);
            && OwnerStays(s.store, After(s, step).store, a)
            && (a !in After(s, step).store.links ==>
                  && step.Advance? && step.job in s.jobs && s.jobs[step.job].Live?
                  && s.jobs[step.job].task.Removing? && s.jobs[step.job].task.account.id == a)
  {
    assert Sound(START);
    AdvancesKnown(Reached(START, steps), step);
    hide After, Allowed, OwnerStays, RemovedBy, JobSound, LinksSound;
    RunKeeps(START, steps);
    var s := Reached(START, steps);
    if step.Advance? {
      OwnerKeptByJob(s, step, a);
    } else {
      OwnerKeptByOthers(s, step, a);
    }
  }

  lemma AdvancesKnown(s: State, step: Step)
    requires Allowed(s, step)
    ensures step.Advance? ==> step.job in s.jobs
  {
  }

  lemma OwnerKeptByJob(s: State, step: Step, a: int)
    requires LinksSound(s.store) && Allowed(s, step) && step.Advance? && JobSound(s, s.jobs[step.job])
    requires a in s.store.links
    ensures OwnerStays(s.store, After(s, step).store, a)
    ensures a !in After(s, step).store.links ==> RemovedBy(s, step, a)
  {
    hide Lower, SameAddress, Taken, Matches;
    assert Primary(s.store, s.store.links[a]);
    match s.jobs[step.job].task
    case Removing(_) => hide Rotate, StartShared, Attach, SignIn;
    case Attaching(_, _, _) => hide Rotate, StartShared, SignIn, Remove;
    case Starting(_, _) => hide Rotate, Attach, SignIn, Remove;
    case SigningIn(_, _, _, _) => hide Rotate, StartShared, Attach, Remove;
    case Rotating(_, _, _) => hide StartShared, Attach, SignIn, Remove;
  }

  lemma OwnerKeptByOthers(s: State, step: Step, a: int)
    requires LinksSound(s.store) && Allowed(s, step) && !step.Advance?
    requires a in s.store.links && step != StopOrdinary(s.store.links[a])
    ensures OwnerStays(s.store, After(s, step).store, a) && a in After(s, step).store.links
  {
    hide Lower, SameAddress;
    assert Primary(s.store, s.store.links[a]);
  }

  /** The account's row is there, with the address and provider somebody read of it. */
  ghost predicate Unaltered(store: Store, account: Account) {
    && account.id in store.accounts && store.accounts[account.id].provider == account.provider
    && Lower(store.accounts[account.id].email) == Lower(account.email)
  }

  /** A removal is refused exactly when, with the turn in hand, its row is not the one it
      was asked for or a shared mailbox links to it; up to then it has changed nothing, and
      from then on nothing refuses it, so a refused removal changes nothing. */
  lemma RemovalAllOrNothing(steps: seq<Step>, job: nat, id: int, kept: bool, account: Account)
    requires Runs(START, steps) && Allowed(Reached(START, steps), Advance(job, id, kept))
    requires On(Reached(START, steps), job, Removing(account))
    ensures var s := Reached(START, steps);
            var after, phase := After(s, Advance(job, id, kept)), s.jobs[job].phase;
            && (after.jobs[job] == Refused
                <==> phase == Holds && (!Unaltered(s.store, account)
                                       || exists a :: a in s.store.links && s.store.links[a] == account.id))
            && (phase in {Waits, Holds} ==> after.store == s.store)
  {
    RunKeeps(START, steps);
    var s := Reached(START, steps);
    hide Lower, LinksSound, RunningSound, TokensSound, SessionsSound;
    assert JobSound(s, s.jobs[job]);
  }

  /** Each Microsoft token is kept under the account that signed in with its address, which
      no shared mailbox is; only the removal that holds the turn leaves one behind, which it
      forgets before it gives the turn back. */
  lemma TokensStayHome(steps: seq<Step>, id: int)
    requires Runs(START, steps) && id in Reached(START, steps).store.tokens
    ensures var s := Reached(START, steps);
            || (&& id in s.store.accounts && s.store.accounts[id].provider == Microsoft && id !in s.store.links
                && Lower(s.store.accounts[id].email) == Lower(s.store.tokens[id]))
            || (s.turn.Some? && s.turn.value in s.jobs && Forgetting(s.jobs[s.turn.value], id))
  {
    RunKeeps(START, steps);
    hide After, Allowed, Lower;
  }

  // A removal and a start, each whole under its turn.

  function Removed(store: Store, account: Account): Option<Store> {
    if !Current(store, account) || Attached(store, account.id) then None
    else
      match Delete(Stop(store, account.id), account.id)
      case None => None
      case Some(without) => Some(Forget(without, account))
  }

  function Started(store: Store, account: Account, owner: int): Option<Store> {
    if !Matches(store, account, owner) then None
    else Some(Run(SetState(store, account.id, Ready), account.id, Prepared(account, owner)))
  }

  /** What is left after a removal: every other row and link, what else runs, and no token
      of the account; deleting is never what refuses it. */
  lemma RemovedExact(store: Store, account: Account)
    ensures var after := Removed(store, account);
            && (after.None? <==> || !Unaltered(store, account)
                                     || exists a :: a in store.links && store.links[a] == account.id)
            && (after.Some? ==>
                  && after.value.accounts == store.accounts - {account.id}
                  && after.value.links == store.links - {account.id}
                  && after.value.running == store.running - {account.id}
                  && after.value.tokens
                     == (if account.provider == Microsoft then store.tokens - {account.id} else store.tokens)
                  && (LinksSound(store) ==> LinksSound(after.value)))
  {
    hide Lower;
  }

  /** A prepared mailbox starts exactly when its row is there with its address, Microsoft's, and
      linked to the owner it was prepared with; then it is ready and its services run, and
      nothing else is different. */
  lemma StartedExact(store: Store, account: Account, owner: int)
    ensures var after := Started(store, account, owner);
            && (after.Some? <==>
                  && account.id in store.accounts && store.accounts[account.id].provider == Microsoft
                  && Lower(store.accounts[account.id].email) == Lower(account.email)
                  && account.id in store.links && store.links[account.id] == owner)
            && (after.Some? ==>
                  && after.value.running == store.running[account.id := Prepared(account, owner)]
                  && (after.value.links, after.value.tokens) == (store.links, store.tokens)
                  && after.value.accounts
                     == store.accounts[account.id := store.accounts[account.id].(state := Ready)])
  {
  }

  /** Attaching begins only with an account of Microsoft 365 that signs in itself. */
  lemma AttachBegins(s: State, job: nat, owner: int, address: string)
    requires Allowed(s, BeginAttach(job, owner, address))
    ensures var known, after := s.store.accounts, After(s, BeginAttach(job, owner, address));
            && after.store == s.store
            && (after.jobs[job] != Refused
                <==> owner in known && known[owner].provider == Microsoft && owner !in s.store.links
                     && known[owner].name == "Microsoft 365")
  {
  }

  /** Signing in again to an account that is there keeps its address and link, names it anew,
      ends its needing to sign in and keeps the token under it; no other row is touched. */
  lemma SignsInAgain(s: State, job: nat, address: string, name: string, id: int)
    requires job in s.jobs && s.jobs[job] == Live(SigningIn(address, name, None, false), Holds)
    requires Primary(s.store, id) && SameAddress(s.store.accounts[id].email, address)
    ensures var go, known := Advance(job, id, true), s.store.accounts[id];
            && Taken(s.store.accounts, address) && Allowed(s, go) && Allowed(After(s, go), go)
            && var after := After(After(s, go), go);
               && after.jobs[job] == Finished && after.turn == None
               && after.store.tokens == s.store.tokens[id := address] && after.store.links == s.store.links
               && after.store.accounts
                  == s.store.accounts[id := Row(known.email, Microsoft, name,
                                                if known.state == NeedsReauth then Ready else known.state,
                                                Some(s.sessions))]
  {
    hide Lower;
    assert id in s.store.accounts && SameAddress(s.store.accounts[id].email, address);
  }

  /** Signing in to an address without an account writes its row and keeps the token under it. */
  lemma SignsInFirst(s: State, job: nat, address: string, name: string, id: int)
    requires job in s.jobs && s.jobs[job] == Live(SigningIn(address, name, None, false), Holds)
    requires !Taken(s.store.accounts, address) && id !in s.store.accounts && id !in s.store.links
    ensures var go := Advance(job, id, true);
            && Allowed(s, go) && Allowed(After(s, go), go) && Allowed(After(After(s, go), go), go)
            && var after := After(After(After(s, go), go), go);
               && after.jobs[job] == Finished && after.turn == None
               && after.store.tokens == s.store.tokens[id := address]
               && after.store.accounts
                  == s.store.accounts[id := Row(address, Microsoft, name, Bootstrapping, Some(s.sessions))]
  {
    hide Lower, SameAddress;
  }

  lemma RemovedWhen(store: Store, account: Account)
    ensures Removed(store, account).None? <==> !Current(store, account) || Attached(store, account.id)
  {
    hide Lower, SameAddress;
  }

  /** A removal's steps with none between them come to the same. */
  lemma RemovalWhole(s: State, job: nat, account: Account)
    requires job in s.jobs && s.jobs[job] == Live(Removing(account), Waits) && s.turn == None
    ensures var after, go := Removed(s.store, account), Advance(job, 0, true);
            var steps := if after.Some? then [go, go, go, go, go] else [go, go];
            && Runs(s, steps)
            && Reached(s, steps)
               == s.(store := if after.Some? then after.value else s.store,
                     jobs := s.jobs[job := if after.Some? then Finished else Refused])
  {
    RemovedWhen(s.store, account);
    hide Lower, SameAddress, Current, Attached;
    var after, go := Removed(s.store, account), Advance(job, 0, true);
    var s1 := Remove(s, job, account);
    var s2 := Remove(s1, job, account);
    if after.Some? {
      var s3 := Remove(s2, job, account);
      var s4 := Remove(s3, job, account);
      Ahead(s4, go, []);
      Ahead(s3, go, [go]);
      Ahead(s2, go, [go, go]);
      Ahead(s1, go, [go, go, go]);
      Ahead(s, go, [go, go, go, go]);
      assert Remove(s4, job, account).jobs == s.jobs[job := Finished];
    } else {
      Ahead(s1, go, []);
      Ahead(s, go, [go]);
      assert s2.jobs == s.jobs[job := Refused];
    }
  }

  lemma Ahead(s: State, step: Step, rest: seq<Step>)
    requires Allowed(s, step) && Runs(After(s, step), rest)
    ensures Runs(s, [step] + rest) && Reached(s, [step] + rest) == Reached(After(s, step), rest)
  {
    assert ([step] + rest)[1..] == rest;
  }

  class Core {
    var accounts: map<int, Row>
    var links: map<int, int>
    var tokens: map<int, string>
    var running: map<int, Service>

    function Contents(): Store
      reads this
    {
      Store(accounts, links, tokens, running)
    }

    constructor ()
      ensures Contents() == START.store
    {
      accounts, links, tokens, running := map[], map[], map[], map[];
    }

    /** Removes an account with the turn in hand; refused, it leaves everything as it was. */
    method RemoveAccount(account: Account) returns (removed: bool)
      modifies this
      ensures removed <==> Removed(old(Contents()), account).Some?
      ensures Contents() == if removed then Removed(old(Contents()), account).value else old(Contents())
    {
      if !Current(Contents(), account) {
        return false;
      }
      if Attached(Contents(), account.id) {
        return false;
      }
      running := running - {account.id};
      accounts := accounts - {account.id};
      links := links - {account.id};
      if account.provider == Microsoft {
        tokens := tokens - {account.id};
      }
      removed := true;
    }

    /** Starts services prepared for a shared mailbox with the turn in hand. */
    method StartSharedMailbox(account: Account, owner: int) returns (started: bool)
      modifies this`accounts, this`running
      ensures started <==> Started(old(Contents()), account, owner).Some?
      ensures Contents() == if started then Started(old(Contents()), account, owner).value else old(Contents())
    {
      started := Matches(Contents(), account, owner);
      if started {
        accounts := accounts[account.id := accounts[account.id].(state := Ready)];
      }
      if started {
        running := running[account.id := Prepared(account, owner)];
      }
    }
  }
}
