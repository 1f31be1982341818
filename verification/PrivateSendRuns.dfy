/**
 * Runs of the server in which private messages are sent, edited and deleted while prekeys are being
 * registered, claimed, used by group distributions and removed.
 */
module PrivateSendRuns {
  import opened Wrappers
  import opened MessageTable
  import opened PrekeyStore
  import opened PrekeyRuns
  import opened PrivateSend

  datatype ServerStep =
    | KeysStep(step: Step)
    | SendStep(r: Request)
    | EditStep(editor: int, id: int, content: Option<Envelope>)
    | DeleteStep(deleter: int, id: int)

  /** The user sent message `id`. */
  predicate IsSender(t: Table<Envelope>, user: int, id: int) {
    0 < id <= |t.rows| && t.rows[id - 1].sender == user
  }

  /** Editing checks the editor and that the envelope decodes, and neither checks nor uses prekeys. */
  function EditPrivate(t: Table<Envelope>, editor: int, id: int, content: Option<Envelope>): Table<Envelope> {
    if IsSender(t, editor, id) && content.Some? && Decoded(content.value) then Edit(t, id, content.value).0 else t
  }

  function DeletePrivate(t: Table<Envelope>, deleter: int, id: int): Table<Envelope> {
    if IsSender(t, deleter, id) then Delete(t, id, []) else t
  }

  ghost function Apply(s: Server, step: ServerStep): Server {
    match step
    case KeysStep(keysStep) => s.(keys := PrekeyRuns.Apply(s.keys, keysStep))
    case SendStep(r) => Send(s, r).0
    case EditStep(editor, id, content) => s.(messages := EditPrivate(s.messages, editor, id, content))
    case DeleteStep(deleter, id) => s.(messages := DeletePrivate(s.messages, deleter, id))
  }

  ghost function After(steps: seq<ServerStep>): Server {
    if steps == [] then Server(Store(map[], 0, map[], map[]), Table([], 0))
    else Apply(After(steps[..|steps| - 1]), steps[|steps| - 1])
  }

  /** Rows are never removed, so the row of a message is found at its id. */
  predicate Numbered(t: Table<Envelope>) {
    |t.rows| == t.lastId && forall i | 0 <= i < |t.rows| :: t.rows[i].id == i + 1
  }

  /** What a stored message that was not edited since references: different prekeys, all spent. */
  ghost predicate Settled(s: Store, row: Row<Envelope>) {
    var ids := RecipientIds(row.content);
    if row.deleted then row.content == []
    else Decoded(row.content) && (row.edited || (ids != [] && Distinct(ids) && forall id | id in ids :: Spent(s, id)))
  }

  predicate Disjoint(a: Row<Envelope>, b: Row<Envelope>) {
    a.edited || b.edited || References(a.content) !! References(b.content)
  }

  ghost predicate ServerSound(s: Server) {
    && Sound(s.keys)
    && Numbered(s.messages)
    && (forall i | 0 <= i < |s.messages.rows| :: Settled(s.keys, s.messages.rows[i]))
    && (forall i, j | 0 <= i < j < |s.messages.rows| :: Disjoint(s.messages.rows[i], s.messages.rows[j]))
  }

  lemma {:induction false} SettledStays(s: Store, step: Step, row: Row<Envelope>)
    requires Sound(s) && Settled(s, row)
    ensures Settled(PrekeyRuns.Apply(s, step), row)
  {
    hide PrekeyRuns.Apply;
    forall id | id in RecipientIds(row.content) && !row.edited {
      StepKeepsSpent(s, step, id);
    }
  }

  /** A send that stores a message uses up every prekey the message references. */
  lemma {:induction false} SendUsesAllItsPrekeys(s: Server, r: Request)
    requires Sound(s.keys) && Send(s, r).1.Sent?
    ensures var ids := RecipientIds(r.content.value.value);
            && ids != [] && Distinct(ids)
            && |ClaimedAmong(s.keys.prekeys, ids)| == |ids|
            && Send(s, r).0.keys == Consume(s.keys, ids)
            && Send(s, r).0.messages == Insert(s.messages, KeyOf(r), r.content.value.value)
            && Decoded(r.content.value.value)
            && (forall id | id in ids :: !Spent(s.keys, id) && Spent(Send(s, r).0.keys, id))
  {
    var entries := r.content.value.value;
    PassedIds(s.keys, r.toUser, r.device, entries);
    AllClaimed(s.keys.prekeys, RecipientIds(entries));
  }

  lemma {:induction false} SendKeepsServerSound(s: Server, r: Request)
    requires ServerSound(s) && Send(s, r).1.Sent?
    ensures ServerSound(Send(s, r).0)
  {
    SendUsesAllItsPrekeys(s, r);
    hide Send, Spent, RecipientIds, Sound, Disjoint, Settled;
    var ids := RecipientIds(r.content.value.value);
    var use := Step(UsePrekeys(ids), 0);
    assert PrekeyRuns.Apply(s.keys, use) == Consume(s.keys, ids);
    StepKeepsSound(s.keys, use);
    var rows := s.messages.rows;
    var after := Send(s, r).0;
    var added := after.messages.rows[|rows|];
    NewIsSettled(after.keys, added);
    forall i | 0 <= i < |rows|
      ensures Settled(after.keys, rows[i]) && Disjoint(rows[i], added)
    {
      SettledStays(s.keys, use, rows[i]);
      NewIsDisjoint(s.keys, rows[i], added);
    }
  }

  lemma NewIsSettled(s: Store, added: Row<Envelope>)
    requires !added.deleted && Decoded(added.content)
    requires RecipientIds(added.content) != [] && Distinct(RecipientIds(added.content))
    requires forall id | id in RecipientIds(added.content) :: Spent(s, id)
    ensures Settled(s, added)
  {
  }

  lemma NewIsDisjoint(s: Store, row: Row<Envelope>, added: Row<Envelope>)
    requires Settled(s, row)
    requires forall id | id in RecipientIds(added.content) :: !Spent(s, id)
    ensures Disjoint(row, added)
  {
    hide Spent;
    forall id | id in References(row.content) && !row.edited
      ensures id !in References(added.content)
    {
      assert Spent(s, id);
    }
  }

  lemma {:induction false} RunIsSound(steps: seq<ServerStep>)
    ensures ServerSound(After(steps))
  {
    if steps != [] {
      var s := After(steps[..|steps| - 1]);
      RunIsSound(steps[..|steps| - 1]);
      match steps[|steps| - 1]
      case KeysStep(step) =>
        KeysStepKeepsServerSound(s, step);
      case SendStep(r) =>
        if Send(s, r).1.Sent? {
          SendKeepsServerSound(s, r);
        }
      case EditStep(editor, id, content) =>
        EditKeepsServerSound(s, editor, id, content);
      case DeleteStep(deleter, id) =>
        DeleteKeepsServerSound(s, deleter, id);
    }
  }

  lemma {:induction false} KeysStepKeepsServerSound(s: Server, step: Step)
    requires ServerSound(s)
    ensures ServerSound(s.(keys := PrekeyRuns.Apply(s.keys, step)))
  {
    hide PrekeyRuns.Apply, Sound, Settled, Disjoint;
    StepKeepsSound(s.keys, step);
    forall i | 0 <= i < |s.messages.rows| {
      SettledStays(s.keys, step, s.messages.rows[i]);
    }
  }

  lemma EditKeepsServerSound(s: Server, editor: int, id: int, content: Option<Envelope>)
    requires ServerSound(s)
    ensures ServerSound(s.(messages := EditPrivate(s.messages, editor, id, content)))
  {
    hide Sound, RecipientIds, References, Spent;
  }

  lemma DeleteKeepsServerSound(s: Server, deleter: int, id: int)
    requires ServerSound(s)
    ensures ServerSound(s.(messages := DeletePrivate(s.messages, deleter, id)))
  {
    hide Sound, Spent;
    assert RecipientIds([]) == [] && References([]) == {};
  }

  /**
   * No prekey is referenced as a recipient entry by two different stored private messages, or
   * twice by one, as long as neither message has been edited.
   */
  lemma {:induction false} NoPrekeyReferencedTwice(steps: seq<ServerStep>, a: Row<Envelope>, b: Row<Envelope>, id: int)
    requires a in After(steps).messages.rows && b in After(steps).messages.rows
    requires !a.edited && !b.edited
    requires id in RecipientIds(a.content) && id in RecipientIds(b.content)
    ensures a == b && Distinct(RecipientIds(a.content)) && Spent(After(steps).keys, id)
  {
    hide Spent, After;
    RunIsSound(steps);
    var rows := After(steps).messages.rows;
    var i :| 0 <= i < |rows| && rows[i] == a;
    var j :| 0 <= j < |rows| && rows[j] == b;
    assert id in References(a.content) && id in References(b.content);
    assert Settled(After(steps).keys, rows[i]);
  }

  /**
   * The proviso is needed: whatever a stored message references, an edit of another message
   * may reference too, and the prekey tables do not notice.
   */
  lemma {:induction false} EditMayReferenceAgain(steps: seq<ServerStep>, a: Row<Envelope>, b: Row<Envelope>)
    requires a in After(steps).messages.rows && b in After(steps).messages.rows
    requires a.id != b.id && !a.edited && !a.deleted && !b.deleted
    ensures var after := After(steps + [EditStep(b.sender, b.id, Some(a.content))]);
            && after.keys == After(steps).keys
            && a in after.messages.rows
            && exists row :: row in after.messages.rows
                 && row.id == b.id && References(row.content) == References(a.content)
  {
    hide ServerSound, After;
    var step := EditStep(b.sender, b.id, Some(a.content));
    var s := After(steps);
    assert After(steps + [step]) == Apply(s, step) by {
      assert (steps + [step])[..|steps|] == steps;
      AfterLast(steps + [step]);
    }
    RunIsSound(steps);
    EditTakesEffect(s, a, b);
  }

  lemma AfterLast(steps: seq<ServerStep>)
    requires steps != []
    ensures After(steps) == Apply(After(steps[..|steps| - 1]), steps[|steps| - 1])
  {
  }

  lemma {:induction false} EditTakesEffect(s: Server, a: Row<Envelope>, b: Row<Envelope>)
    requires ServerSound(s) && a in s.messages.rows && b in s.messages.rows
    requires a.id != b.id && !a.deleted && !b.deleted
    ensures var after := EditPrivate(s.messages, b.sender, b.id, Some(a.content)).rows;
            && a in after
            && exists row :: row in after && row.id == b.id && References(row.content) == References(a.content)
  {
    hide Sound, RecipientIds, References, Spent, Disjoint;
    var rows := s.messages.rows;
    var i :| 0 <= i < |rows| && rows[i] == a;
    var j :| 0 <= j < |rows| && rows[j] == b;
    assert Settled(s.keys, rows[i]);
    var after := EditPrivate(s.messages, b.sender, b.id, Some(a.content)).rows;
    assert after[i] == a && after[j] in after && after[j].content == a.content;
  }

  /**
   * What becomes of a stored message in one step: only its sender's edit gives it another
   * content, and only its sender's deletion takes it away.
   */
  lemma {:induction false} RowEffect(s: Server, step: ServerStep, i: nat)
    requires Numbered(s.messages) && i < |s.messages.rows|
    ensures i < |Apply(s, step).messages.rows|
    ensures var row, after := s.messages.rows[i], Apply(s, step).messages.rows[i];
            match step
            case EditStep(editor, id, content) =>
              if id == row.id && editor == row.sender && !row.deleted && content.Some? && content.value != []
                 && forall e | e in content.value :: e.device != "" && e.prekeyId >= 0
              then after == row.(content := content.value, edited := true)
              else after == row
            case DeleteStep(deleter, id) =>
              if id == row.id && deleter == row.sender then after == row.(content := [], deleted := true)
              else after == row
            case KeysStep(_) => after == row
            case SendStep(_) => after == row
  {
    hide PrekeyRuns.Apply, Check, Lookup, Consume;
  }

  // ---------------------------------------------------------------- sending again

  /** The look-up finds this row for the key, whatever has become of its content. */
  predicate Finds(t: Table<Envelope>, key: Key, id: int) {
    Lookup(t.rows, key).Some? && Lookup(t.rows, key).value.id == id
  }

  /** Rows that agree in their keys and ids, as far as the first ones go, are found alike. */
  lemma {:induction false} FoundAlike(rows: seq<Row<Envelope>>, more: seq<Row<Envelope>>, key: Key)
    requires |rows| <= |more| && Lookup(rows, key).Some?
    requires forall i | 0 <= i < |rows| ::
               more[i].id == rows[i].id && (Matches(more[i], key) <==> Matches(rows[i], key))
    ensures Lookup(more, key).Some? && Lookup(more, key).value.id == Lookup(rows, key).value.id
  {
    if rows != [] && !Matches(rows[0], key) {
      FoundAlike(rows[1..], more[1..], key);
    }
  }

  lemma {:induction false} StepKeepsFinding(s: Server, step: ServerStep, key: Key, id: int)
    requires Finds(s.messages, key, id)
    ensures Finds(Apply(s, step).messages, key, id)
  {
    hide PrekeyRuns.Apply, Lookup, Check, Consume, Decoded;
    FoundAlike(s.messages.rows, Apply(s, step).messages.rows, key);
  }

  lemma {:induction false} RunKeepsFinding(steps: seq<ServerStep>, n: nat, key: Key, id: int)
    requires n <= |steps| && Finds(After(steps[..n]).messages, key, id)
    ensures Finds(After(steps).messages, key, id)
    decreases |steps|
  {
    hide Apply, Finds;
    if n < |steps| {
      var init := steps[..|steps| - 1];
      assert init[..n] == steps[..n];
      RunKeepsFinding(init, n, key, id);
      StepKeepsFinding(After(init), steps[|steps| - 1], key, id);
    } else {
      assert steps[..n] == steps;
    }
  }

  /** After the send the look-up finds the new row, if the device is named. */
  lemma SentIsFound(s: Server, r: Request)
    requires r.device != "" && (Send(s, r).1.Sent? || Send(s, r).1.Reused?)
    ensures Finds(Send(s, r).0.messages, KeyOf(r), Send(s, r).1.id)
  {
    hide Check, Decoded, Consume, Lookup;
    AnswerNamesTheRow(s, r);
    var t := Send(s, r).0;
    if Send(s, r).1.Sent? {
      var added := t.messages.rows[|s.messages.rows|];
      assert added in t.messages.rows && Matches(added, KeyOf(r));
      assert forall row | row in t.messages.rows :: row == added || row in s.messages.rows;
    }
  }

  /**
   * A client that names its device may send a message again at any time: whatever has been
   * sent, edited, deleted or done to the prekeys since, and even if its prekeys are all used
   * up, it is answered with the id it was answered with first, and nothing changes.
   */
  lemma {:induction false} ResendIsReused(steps: seq<ServerStep>, n: nat, r: Request, again: Request)
    requires n < |steps| && steps[n] == SendStep(r) && r.device != "" && Resends(r, again)
    requires Send(After(steps[..n]), r).1.Sent? || Send(After(steps[..n]), r).1.Reused?
    ensures Send(After(steps), again) == (After(steps), Reused(Send(After(steps[..n]), r).1.id))
  {
    hide After, Check, Decoded, Consume, Lookup;
    SentIsFound(After(steps[..n]), r);
    AfterStep(steps, n);
    RunKeepsFinding(steps, n + 1, KeyOf(r), Send(After(steps[..n]), r).1.id);
  }

  // ---------------------------------------------------------------- it can come to that

  const KEY := KeyText("key", true)

  /** User 2 registers two devices with one prekey each, and both prekeys are claimed. */
  function Stocked(): seq<ServerStep> {
    [KeysStep(Step(RegisterKeys(2, "d", KEY, [KEY]), 0)),
     KeysStep(Step(RegisterKeys(2, "e", KEY, [KEY]), 0)),
     KeysStep(Step(ClaimFor(2, (d: string) => 0), 0))]
  }

  function Rows(d: Status, e: Status): map<int, Prekey> {
    map[1 := Prekey(2, "d", "key", d), 2 := Prekey(2, "e", "key", e)]
  }

  function Keys(d: Status, e: Status): Store {
    Store(Rows(d, e), 2, map[(2, "d") := "key", (2, "e") := "key"], map[1 := "key", 2 := "key"])
  }

  lemma FirstDevice()
    ensures Register(Store(map[], 0, map[], map[]), 2, "d", KEY, [KEY]).0 ==
            Store(map[1 := Prekey(2, "d", "key", Unused)], 1, map[(2, "d") := "key"], map[1 := "key"])
  {
    var registered := UpsertIdentity(Store(map[], 0, map[], map[]), 2, "d", "key").0;
    assert Stock(registered.prekeys, 2, "d") == {};
    assert Texts([KEY]) == ["key"] && ["key"][..0] == [];
    assert Upload(registered, 2, "d", []) == registered;
  }

  lemma SecondDevice()
    ensures var s := Store(map[1 := Prekey(2, "d", "key", Unused)], 1, map[(2, "d") := "key"], map[1 := "key"]);
            Register(s, 2, "e", KEY, [KEY]).0 == Keys(Unused, Unused)
  {
    var s := Store(map[1 := Prekey(2, "d", "key", Unused)], 1, map[(2, "d") := "key"], map[1 := "key"]);
    var registered := UpsertIdentity(s, 2, "e", "key").0;
    assert Stock(registered.prekeys, 2, "e") == {};
    assert Texts([KEY]) == ["key"] && ["key"][..0] == [];
    assert Upload(registered, 2, "e", []) == registered;
  }

  lemma {:induction false} BothClaimed(at: Readings)
    requires forall d :: at(d) == 0
    ensures Claim(Keys(Unused, Unused), 2, 0, at) == Keys(Claimed(0), Claimed(0))
  {
    hide Claim, Hands;
    var s := Keys(Unused, Unused);
    BothAreHanded();
    ClaimEffect(s, 2, 0, at, 1);
    ClaimEffect(s, 2, 0, at, 2);
    assert Claim(s, 2, 0, at).prekeys == Rows(Claimed(0), Claimed(0));
    ClaimKeepsRest(s, 2, 0, at);
  }

  lemma BothAreHanded()
    ensures var s := Keys(Unused, Unused); Hands(s, 2, 0, 1) && Hands(s, 2, 0, 2)
  {
    hide Hands;
    var s := Keys(Unused, Unused);
    ClaimEffect(s, 2, 0, (d: string) => 0, 1);
    ClaimEffect(s, 2, 0, (d: string) => 0, 2);
  }

  lemma ClaimKeepsRest(s: Store, user: int, now: int, at: Readings)
    ensures Claim(s, user, now, at) == s.(prekeys := Claim(s, user, now, at).prekeys)
  {
  }

  lemma {:induction false} AfterStep(steps: seq<ServerStep>, i: nat)
    requires i < |steps|
    ensures After(steps[..i + 1]) == Apply(After(steps[..i]), steps[i])
  {
    assert steps[..i + 1][..i] == steps[..i];
  }

  lemma {:induction false} AfterStocked()
    ensures After(Stocked()) == Server(Keys(Claimed(0), Claimed(0)), Table([], 0))
  {
    hide After, Register, Claim;
    var steps := Stocked();
    AfterNothing(steps);
    AfterStep(steps, 0);
    FirstDevice();
    AfterStep(steps, 1);
    SecondDevice();
    AfterStep(steps, 2);
    BothClaimed(steps[2].step.action.at);
    assert steps[..3] == steps;
  }

  lemma AfterNothing(steps: seq<ServerStep>)
    ensures After(steps[..0]) == Server(Store(map[], 0, map[], map[]), Table([], 0))
  {
  }

  /** User 1 sends one message to the one device. */
  function SendTo(clientMessageId: string, e: Entry): Request {
    Request(1, "x", clientMessageId, 2, Some(Some([e])))
  }

  lemma OneEntryPasses(s: Store, e: Entry)
    requires ValidateClaimed(s, 2, e.device, e.prekeyId) && e.device != "x"
    ensures Check(s, 2, "x", [e]) == Passed([e.prekeyId], {e.device}, false)
  {
    assert [e][..0] == [];
    assert Check(s, 2, "x", []) == Passed([], {}, false);
  }

  lemma SendStores(s: Server, r: Request, e: Entry)
    requires r == SendTo(r.clientMessageId, e) && 0 < |r.clientMessageId| <= MAX_CLIENT_MESSAGE_ID
    requires ValidateClaimed(s.keys, 2, e.device, e.prekeyId) && e.device != "x" && e.device != "" && e.prekeyId > 0
    requires Lookup(s.messages.rows, KeyOf(r)).None?
    ensures Send(s, r).0 == Server(Consume(s.keys, [e.prekeyId]), Insert(s.messages, KeyOf(r), [e]))
  {
    OneEntryPasses(s.keys, e);
  }

  function First(): Request {
    SendTo("m", Entry("d", 1))
  }

  function Second(): Request {
    SendTo("n", Entry("e", 2))
  }

  function BothSent(): seq<ServerStep> {
    Stocked() + [SendStep(First()), SendStep(Second())]
  }

  /** The rows of the two messages. */
  function FirstRow(): Row<Envelope> {
    NewRow(1, KeyOf(First()), [Entry("d", 1)])
  }

  function SecondRow(): Row<Envelope> {
    NewRow(2, KeyOf(Second()), [Entry("e", 2)])
  }

  lemma {:induction false} FirstIsStored()
    ensures After(BothSent()[..4]) == Server(Keys(Used, Claimed(0)), Table([FirstRow()], 1))
  {
    hide After, Send, Lookup, Insert, Stocked;
    var sent, s := BothSent(), Server(Keys(Claimed(0), Claimed(0)), Table([], 0));
    assert |Stocked()| == 3 by { StockedIsThree(); }
    assert sent[..3] == Stocked();
    AfterStocked();
    AfterStep(sent, 3);
    NothingFound(KeyOf(First()), KeyOf(Second()), FirstRow());
    SendStores(s, First(), Entry("d", 1));
    InsertAppends(Table([], 0), KeyOf(First()), [Entry("d", 1)]);
    assert UseUp(Rows(Claimed(0), Claimed(0)), [1]) == Rows(Used, Claimed(0));
    assert [] + [FirstRow()] == [FirstRow()];
  }

  lemma StockedIsThree()
    ensures |Stocked()| == 3
  {
  }

  lemma {:induction false} BothAreStored()
    ensures After(BothSent()).messages.rows == [FirstRow(), SecondRow()]
  {
    hide After, Send, Lookup, Insert, Stocked, UseUp;
    var sent, s := BothSent(), Server(Keys(Used, Claimed(0)), Table([FirstRow()], 1));
    StockedIsThree();
    FirstIsStored();
    AfterStep(sent, 4);
    assert sent[..5] == sent;
    NothingFound(KeyOf(First()), KeyOf(Second()), FirstRow());
    SendStores(s, Second(), Entry("e", 2));
    InsertAppends(Table([FirstRow()], 1), KeyOf(Second()), [Entry("e", 2)]);
  }

  /** Some run ends with two messages that name the same prekey for a recipient, one of them edited. */
  lemma SomeRunReferencesAgain()
    ensures exists steps, a, b :: a in After(steps).messages.rows && b in After(steps).messages.rows
              && a.id != b.id && !a.edited && 1 in References(a.content) && 1 in References(b.content)
  {
    hide After, BothSent, References;
    BothAreStored();
    EditMayReferenceAgain(BothSent(), FirstRow(), SecondRow());
    NamesOne();
  }

  lemma NothingFound(first: Key, second: Key, a: Row<Envelope>)
    requires second.clientMessageId != "" && a == NewRow(1, first, a.content) && first != second
    ensures Lookup<Envelope>([], first).None? && Lookup([a], second).None?
  {
  }

  lemma InsertAppends(t: Table<Envelope>, key: Key, content: Envelope)
    ensures Insert(t, key, content) == Table(t.rows + [NewRow(t.lastId + 1, key, content)], t.lastId + 1)
  {
  }

  lemma NamesOne()
    ensures 1 in References([Entry("d", 1)])
  {
    assert [Entry("d", 1)][..0] == [];
    assert RecipientIds([Entry("d", 1)]) == [] + [1];
  }
}
