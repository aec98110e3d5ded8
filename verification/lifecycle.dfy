/** The per-message rule of `bot.py`: `on_message` and `on_message_edit`
    reduced to a choice of action from the old and new extracted amounts,
    then that action applied to the table. */
module Lifecycle {
  import opened Wrappers
  import opened Ledger
  import opened Extractor

  /** What a message event does to the table. */
  datatype Action = Insert(amountCents: nat) | Update(amountCents: nat) | Delete | NoOp

  /** A chat message as the event handlers see it. A message outside a guild
      has `guild == None`. */
  datatype Message = Message(
    guild: Option<nat>,
    channel: nat,
    id: nat,
    author: nat,
    authorIsBot: bool,
    content: Option<seq<char>>)

  /** Only guild messages from human authors reach the ledger. */
  predicate Tracked(m: Message) {
    m.guild.Some? && !m.authorIsBot
  }

  /** Inserts and updates carry a positive amount. */
  predicate PositiveAction(a: Action) {
    (a.Insert? || a.Update?) ==> a.amountCents > 0
  }

  /** A new message inserts its amount when it is positive. */
  function NewMessageAction(amt: nat): (a: Action)
    ensures a.Insert? <==> amt > 0
    ensures a.Insert? ==> a.amountCents == amt
    ensures !a.Insert? ==> a.NoOp?
  {
    if amt > 0 then Insert(amt) else NoOp
  }

  /** The edit rule on the amounts before and after the edit. */
  function EditAction(prior: nat, current: nat): (a: Action)
    ensures a.Insert? <==> prior == 0 && current > 0
    ensures a.Update? <==> prior > 0 && current > 0 && prior != current
    ensures a.Delete? <==> prior > 0 && current == 0
    ensures a.NoOp? <==> prior == current
    ensures (a.Insert? || a.Update?) ==> a.amountCents == current
  {
    if prior == 0 && current > 0 then Insert(current)
    else if prior > 0 && current > 0 && prior != current then Update(current)
    else if prior > 0 && current == 0 then Delete
    else NoOp
  }

  /** Carries out an action for message `m` at instant `now`. */
  function Apply(st: Store, a: Action, m: Message, now: int): Store
    requires m.guild.Some?
  {
    match a
    case Insert(v) => InsertSale(st, m.guild.value, m.channel, m.id, m.author, v, now)
    case Update(v) => UpdateAmount(st, m.id, v)
    case Delete => DeleteByMessage(st, m.id)
    case NoOp => st
  }

  /** `on_message`. */
  function OnMessage(st: Store, m: Message, now: int): (r: Store)
    ensures !Tracked(m) ==> r == st
    ensures Tracked(m) && ParseAmounts(m.content) == 0 ==> r == st
  {
    if !Tracked(m) then st
    else Apply(st, NewMessageAction(ParseAmounts(m.content)), m, now)
  }

  /** `on_message_edit`: the amounts of the prior and the new text decide; the
      identifiers are those of the message after the edit. */
  function OnMessageEdit(st: Store, before: Message, after: Message, now: int): (r: Store)
    ensures !Tracked(after) ==> r == st
    ensures ParseAmounts(before.content) == ParseAmounts(after.content) ==> r == st
  {
    if !Tracked(after) then st
    else Apply(st, EditAction(ParseAmounts(before.content), ParseAmounts(after.content)), after, now)
  }

  // ---------------------------------------------------------------------
  // Properties

  /** An action with a positive amount keeps the table valid. */
  lemma ApplyValid(st: Store, a: Action, m: Message, now: int)
    requires Valid(st) && PositiveAction(a) && m.guild.Some?
    ensures Valid(Apply(st, a, m, now))
  {
    match a
    case Insert(v) => InsertSaleValid(st, m.guild.value, m.channel, m.id, m.author, v, now);
    case Update(v) => UpdateAmountValid(st, m.id, v);
    case Delete => DeleteByMessageValid(st, m.id);
    case NoOp =>
  }

  /** Message events keep every stored amount positive and one row per
      message. */
  lemma EventsKeepValid(st: Store, before: Message, m: Message, now: int)
    requires Valid(st)
    ensures Valid(OnMessage(st, m, now))
    ensures Valid(OnMessageEdit(st, before, m, now))
  {
    if Tracked(m) {
      ApplyValid(st, NewMessageAction(ParseAmounts(m.content)), m, now);
      ApplyValid(st, EditAction(ParseAmounts(before.content), ParseAmounts(m.content)), m, now);
    }
  }

  /** The table agrees with a message's amount: a row holding that amount when
      it is positive, no row when it is 0. */
  predicate Synced(st: Store, msg: nat, amt: nat) {
    match Find(st.rows, msg)
    case None => amt == 0
    case Some(x) => amt > 0 && x.amountCents == amt
  }

  /** An action touches only the row of its own message. */
  lemma ApplyLocal(st: Store, a: Action, m: Message, now: int, other: nat)
    requires UniqueMessages(st.rows) && m.guild.Some? && other != m.id
    ensures Find(Apply(st, a, m, now).rows, other) == Find(st.rows, other)
  {
    match a
    case Insert(v) =>
    case Update(v) => UpdateAmountFind(st, m.id, v);
    case Delete => DeleteByMessageFind(st, m.id);
    case NoOp =>
  }

  /** A current tracked message that the table has not seen is recorded exactly
      when its amount is positive, at the instant it arrives. */
  lemma NewMessageSync(st: Store, m: Message, now: int)
    requires Tracked(m) && Find(st.rows, m.id).None?
    ensures Synced(OnMessage(st, m, now), m.id, ParseAmounts(m.content))
    ensures ParseAmounts(m.content) > 0 ==>
      Find(OnMessage(st, m, now).rows, m.id) ==
        Some(Record(st.nextId, m.guild.value, m.channel, m.id, m.author, ParseAmounts(m.content), now))
  {
  }

  /** Re-delivering a message that is already recorded changes nothing. */
  lemma RedeliveryIgnored(st: Store, m: Message, now: int)
    requires Find(st.rows, m.id).Some?
    ensures OnMessage(st, m, now) == st
  {
  }

  /** An edit carries a table that agrees with the old text to one that agrees
      with the new text. */
  lemma EditSync(st: Store, before: Message, after: Message, now: int)
    requires UniqueMessages(st.rows) && Tracked(after)
    requires Synced(st, after.id, ParseAmounts(before.content))
    ensures Synced(OnMessageEdit(st, before, after, now), after.id, ParseAmounts(after.content))
  {
    var prior, current := ParseAmounts(before.content), ParseAmounts(after.content);
    match EditAction(prior, current)
    case Insert(v) =>
    case Update(v) => UpdateAmountFind(st, after.id, v);
    case Delete => DeleteByMessageFind(st, after.id);
    case NoOp =>
  }

  /** An edit never moves a row's timestamp, id, owner or message: the
      message's row afterwards is gone, unchanged, or the same row with the new
      amount. */
  lemma EditKeepsTimestamp(st: Store, before: Message, after: Message, now: int)
    requires UniqueMessages(st.rows)
    requires Find(st.rows, after.id).Some?
    ensures var x := Find(st.rows, after.id).value;
      var y := Find(OnMessageEdit(st, before, after, now).rows, after.id);
      y.None? || y == Some(x) || y == Some(WithAmount(x, ParseAmounts(after.content)))
  {
    if Tracked(after) {
      var prior, current := ParseAmounts(before.content), ParseAmounts(after.content);
      match EditAction(prior, current)
      case Insert(v) =>
      case Update(v) => UpdateAmountFind(st, after.id, v);
      case Delete => DeleteByMessageFind(st, after.id);
      case NoOp =>
    }
  }

  /** Events on one message leave every other message's row as it was. */
  lemma EventsLocal(st: Store, before: Message, m: Message, now: int, other: nat)
    requires UniqueMessages(st.rows) && other != m.id
    ensures Find(OnMessage(st, m, now).rows, other) == Find(st.rows, other)
    ensures Find(OnMessageEdit(st, before, m, now).rows, other) == Find(st.rows, other)
  {
    if Tracked(m) {
      ApplyLocal(st, NewMessageAction(ParseAmounts(m.content)), m, now, other);
      ApplyLocal(st, EditAction(ParseAmounts(before.content), ParseAmounts(m.content)), m, now, other);
    }
  }
}
