/** What the volunteer's buttons do to the local state: accept and conclude
    rewrite one case, decline hides it, and the chat appends messages. The
    backend calls behind them are parameters: whether the client is
    configured, and the error (if any) the update or insert returned. */
module Actions {
  import opened Wrappers
  import opened Supabase
  import opened Text
  import opened Seqs
  import opened StableSort
  import opened Geo
  import Paging
  import Feed

  /** The list after an action, and the blocking notice (`alert`) shown. */
  datatype Outcome = Outcome(demands: seq<Demand>, notice: Option<string>)

  const AcceptOffline := "Configure Supabase para aceitar demandas."
  const ConcludeOffline := "Configure Supabase para concluir demandas."

  /** `prev.map(x => x.id === id ? edit(x) : x)`. */
  function RewriteById(demands: seq<Demand>, id: string, edit: Demand -> Demand): (r: seq<Demand>)
    ensures |r| == |demands|
    ensures forall i :: 0 <= i < |r| ==> r[i] == if demands[i].id == id then edit(demands[i]) else demands[i]
  {
    if |demands| == 0 then []
    else [if demands[0].id == id then edit(demands[0]) else demands[0]] + RewriteById(demands[1..], id, edit)
  }

  function AcceptEdit(name: string): Demand -> Demand {
    (x: Demand) => x.(status := EmProgresso, assignedVolunteerName := Some(name))
  }

  function ConcludeEdit(): Demand -> Demand {
    (x: Demand) => x.(status := Concluida)
  }

  /** `acceptDemand(d)`: `name` is what the name prompt returned (None when
      cancelled), `updateError` the update's error. */
  function Accept(demands: seq<Demand>, id: string, offline: bool, name: Option<string>,
                  updateError: Option<string>): (o: Outcome)
    ensures |o.demands| == |demands|
    ensures offline || name.GetOr("") == "" || updateError.Some? ==> o.demands == demands
    ensures offline <==> o.notice == Some(AcceptOffline)
    ensures !offline && name.GetOr("") != "" && updateError.Some? ==>
      o.notice == Some("Falha ao aceitar: " + updateError.value)
    ensures !offline && name.GetOr("") == "" ==> o.notice.None?
    ensures !offline && name.GetOr("") != "" && updateError.None? ==>
      && o.notice.None?
      && forall i :: 0 <= i < |demands| ==>
           if demands[i].id == id then
             && o.demands[i].status == EmProgresso
             && o.demands[i].assignedVolunteerName == name
             && o.demands[i] == demands[i].(status := EmProgresso, assignedVolunteerName := name)
           else o.demands[i] == demands[i]
  {
    if offline then Outcome(demands, Some(AcceptOffline))
    else
      var n := name.GetOr("");
      if n == "" then Outcome(demands, None)
      else if updateError.Some? then
        var text := "Falha ao aceitar: " + updateError.value;
        assert text[0] != AcceptOffline[0];
        Outcome(demands, Some(text))
      else Outcome(RewriteById(demands, id, AcceptEdit(n)), None)
  }

  /** `concludeDemand(d)`. */
  function Conclude(demands: seq<Demand>, id: string, offline: bool, updateError: Option<string>): (o: Outcome)
    ensures |o.demands| == |demands|
    ensures offline || updateError.Some? ==> o.demands == demands
    ensures offline <==> o.notice == Some(ConcludeOffline)
    ensures !offline && updateError.Some? ==> o.notice == Some("Falha ao concluir: " + updateError.value)
    ensures !offline && updateError.None? ==>
      && o.notice.None?
      && forall i :: 0 <= i < |demands| ==>
           if demands[i].id == id then o.demands[i] == demands[i].(status := Concluida)
           else o.demands[i] == demands[i]
  {
    if offline then Outcome(demands, Some(ConcludeOffline))
    else if updateError.Some? then
      var text := "Falha ao concluir: " + updateError.value;
      assert text[0] != ConcludeOffline[0];
      Outcome(demands, Some(text))
    else Outcome(RewriteById(demands, id, ConcludeEdit()), None)
  }

  /** A rewrite keeps every identifier in place, so a merged feed stays
      free of duplicates. */
  lemma RewriteKeepsIds(demands: seq<Demand>, id: string, edit: Demand -> Demand)
    requires forall x :: edit(x).id == x.id
    ensures forall i :: 0 <= i < |demands| ==> RewriteById(demands, id, edit)[i].id == demands[i].id
    ensures Paging.UniqueIds(demands) ==> Paging.UniqueIds(RewriteById(demands, id, edit))
  {
  }

  /** In a feed with unique identifiers an accepted case is rewritten at its
      one position and nowhere else. */
  lemma AcceptTouchesOneRecord(demands: seq<Demand>, i: nat, name: string)
    requires Paging.UniqueIds(demands) && i < |demands| && name != ""
    ensures var o := Accept(demands, demands[i].id, false, Some(name), None);
      && o.demands[i] == demands[i].(status := EmProgresso, assignedVolunteerName := Some(name))
      && forall j :: 0 <= j < |demands| && j != i ==> o.demands[j] == demands[j]
  {
  }

  /** Accepting twice with the same name is accepting once. */
  lemma AcceptIdempotent(demands: seq<Demand>, id: string, name: string)
    requires name != ""
    ensures var once := Accept(demands, id, false, Some(name), None).demands;
      Accept(once, id, false, Some(name), None).demands == once
  {
    var once := Accept(demands, id, false, Some(name), None).demands;
    var twice := Accept(once, id, false, Some(name), None).demands;
    assert forall i :: 0 <= i < |once| ==> twice[i] == once[i];
  }

  /** After a successful accept the case shows under "minhas" and no longer
      under "aguardando"; after a conclude it shows only under "concluidas". */
  lemma AcceptAndConcludeMoveBetweenSelectors(demands: seq<Demand>, i: nat, name: string)
    requires i < |demands| && name != ""
    ensures var a := Accept(demands, demands[i].id, false, Some(name), None).demands[i];
      Feed.MatchesStatus(Feed.Minhas, a.status) && !Feed.MatchesStatus(Feed.Aguardando, a.status)
    ensures var c := Conclude(demands, demands[i].id, false, None).demands[i];
      && Feed.MatchesStatus(Feed.Concluidas, c.status)
      && !Feed.MatchesStatus(Feed.Aguardando, c.status)
      && !Feed.MatchesStatus(Feed.Minhas, c.status)
  {
  }

  // ----- decline -----

  /** The decline button: `setDismissedIds(prev => [...prev, d.id])`. */
  function Decline(v: Feed.View, id: string): (w: Feed.View)
    ensures |w.dismissedIds| == |v.dismissedIds| + 1
    ensures w.dismissedIds[..|v.dismissedIds|] == v.dismissedIds && w.dismissedIds[|v.dismissedIds|] == id
    ensures forall x :: x in w.dismissedIds <==> x in v.dismissedIds || x == id
    ensures w.(dismissedIds := v.dismissedIds) == v
  {
    v.(dismissedIds := v.dismissedIds + [id])
  }

  function NotId(id: string): Demand -> bool {
    (d: Demand) => d.id != id
  }

  /** Declining removes the declined case, and only it, from the visible list,
      leaving the order of the others as it was. */
  lemma DeclineHidesOnlyThatCase(demands: seq<Demand>, v: Feed.View, metric: Metric, id: string)
    ensures Feed.Filtered(demands, Decline(v, id), metric) == Filter(NotId(id), Feed.Filtered(demands, v, metric))
  {
    var w := Decline(v, id);
    var key := Feed.KeyOf(v, metric);
    assert Feed.KeyOf(w, metric) == key;
    Feed.StagesAreOneFilter(demands, v, metric);
    Feed.StagesAreOneFilter(demands, w, metric);
    forall d ensures Feed.KeepIn(w, metric)(d) == (Feed.KeepIn(v, metric)(d) && NotId(id)(d)) {
      assert Feed.WithinRadius(w, metric, d) == Feed.WithinRadius(v, metric, d);
    }
    FilterFilter(Feed.KeepIn(v, metric), NotId(id), Feed.KeepIn(w, metric), demands);
    SortFilterCommute(key, NotId(id), Filter(Feed.KeepIn(v, metric), demands));
  }

  // ----- chat -----

  /** The open chat: its messages and the text in the input box. */
  datatype Chat = Chat(messages: seq<Message>, input: string)

  /** The realtime INSERT callback: the new row goes at the end, as delivered. */
  function OnInsert(messages: seq<Message>, m: Message): (r: seq<Message>)
    ensures |r| == |messages| + 1
    ensures r[..|messages|] == messages && r[|messages|] == m
  {
    messages + [m]
  }

  /** `sendMessage()`. Offline, the trimmed text is appended as a local
      volunteer message stamped `now` with id `localId`, and the box is
      cleared. Online the message is inserted remotely (it comes back through
      `OnInsert`) and the box is cleared unless the insert failed. */
  function SendMessage(c: Chat, open: Option<Demand>, offline: bool, localId: string, now: int,
                       insertError: Option<string>): (r: Chat)
    ensures open.None? || Trim(c.input) == [] ==> r == c
    ensures open.Some? && Trim(c.input) != [] && offline ==>
      && r.input == []
      && r.messages == c.messages + [Message(localId, now, open.value.id, Voluntario, Trim(c.input))]
    ensures open.Some? && Trim(c.input) != [] && !offline ==>
      && r.messages == c.messages
      && (r.input == [] <==> insertError.None? || c.input == [])
  {
    if open.None? || Trim(c.input) == [] then c
    else if offline then
      Chat(c.messages + [Message(localId, now, open.value.id, Voluntario, Trim(c.input))], "")
    else if insertError.None? then c.(input := "")
    else c
  }

  /** A sent message is never blank and has no surrounding white space. */
  lemma SentMessageIsTrimmed(c: Chat, d: Demand, localId: string, now: int)
    requires Trim(c.input) != []
    ensures var r := SendMessage(c, Some(d), true, localId, now, None);
      var m := r.messages[|r.messages| - 1];
      && m.content != [] && !IsSpace(m.content[0]) && !IsSpace(m.content[|m.content| - 1])
      && m.demandId == d.id && m.sender == Voluntario
  {
  }

  const CallNote := "Ligação simulada ao responsável."

  /** `simulateCall(d)`: offline a system note is appended locally; online it
      is inserted remotely and arrives through `OnInsert`. */
  function SimulateCall(messages: seq<Message>, d: Demand, offline: bool, localId: string, now: int): (r: seq<Message>)
    ensures offline ==>
      && |r| == |messages| + 1 && r[..|messages|] == messages
      && var m := r[|messages|];
         m.sender == Sistema && m.content == CallNote && m.demandId == d.id
         && m.id == localId && m.createdAt == now
    ensures !offline ==> r == messages
  {
    if offline then messages + [Message(localId, now, d.id, Sistema, CallNote)] else messages
  }

  /** The local note written offline is what the online chat shows once the
      inserted note comes back through the realtime channel. */
  lemma SimulateCallIsEcho(messages: seq<Message>, d: Demand, localId: string, now: int)
    ensures SimulateCall(messages, d, true, localId, now)
         == OnInsert(SimulateCall(messages, d, false, localId, now), Message(localId, now, d.id, Sistema, CallNote))
  {
  }
}
