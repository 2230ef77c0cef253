/** The "Linha do Tempo" tab of the case panel (`buildTimeline`): a handful of
    events derived from the case and the first messages of its chat, sorted
    by date. */
module Timeline {
  import opened Wrappers
  import opened Supabase
  import opened Text
  import opened StableSort

  /** The colour class of the dot drawn for an event. */
  datatype Kind = Success | Warning | Gray | Neutral

  /** Which entry an event is; `Text` gives the heading shown. */
  datatype Title = DemandaCriada | ConsentimentoConcedido | VoluntarioAceitou | Mensagem(author: Sender) | DemandaConcluida
  {
    function Text(): (r: string)
      ensures |r| > 0
    {
      match this
      case DemandaCriada => "Demanda criada"
      case ConsentimentoConcedido => "Consentimento concedido"
      case VoluntarioAceitou => "Voluntário aceitou"
      case Mensagem(a) => "Mensagem — " + Author(a)
      case DemandaConcluida => "Demanda concluída"
    }
  }

  /** One entry; `date` is in milliseconds, as `Date.getTime()` returns it. */
  datatype Event = Event(title: Title, description: string, date: int, kind: Kind)

  /** How many chat messages the timeline shows. */
  const MessagesShown: nat := 3

  function Created(d: Demand): Event {
    Event(DemandaCriada, Trim(d.studentName + " — " + d.city.GetOr("")), d.createdAt, Gray)
  }

  function Consented(at: int): Event {
    Event(ConsentimentoConcedido, "Responsável autorizou contato.", at, Neutral)
  }

  /** Dated at the case's creation: the row keeps no acceptance time. */
  function Accepted(d: Demand, name: string): Event {
    Event(VoluntarioAceitou, name, d.createdAt, Success)
  }

  function Author(s: Sender): string {
    match s
    case Voluntario => "Voluntário"
    case Familia => "Família"
    case Sistema => "Sistema"
  }

  function MessageEvent(m: Message): Event {
    Event(Mensagem(m.sender), m.content, m.createdAt, Neutral)
  }

  function Concluded(now: int): Event {
    Event(DemandaConcluida, "Caso finalizado com sucesso.", now, Success)
  }

  /** A case shows the acceptance when it is in progress and the volunteer
      name is non-empty (the source tests it for truthiness). */
  predicate ShowsAcceptance(d: Demand) {
    d.status == EmProgresso && d.assignedVolunteerName.Some? && d.assignedVolunteerName.value != ""
  }

  function MessageEvents(msgs: seq<Message>): (r: seq<Event>)
    ensures |r| == |msgs|
    ensures forall i :: 0 <= i < |r| ==> r[i] == MessageEvent(msgs[i])
  {
    if |msgs| == 0 then [] else [MessageEvent(msgs[0])] + MessageEvents(msgs[1..])
  }

  function FirstMessages(msgs: seq<Message>): (r: seq<Message>)
    ensures |r| == if |msgs| < MessagesShown then |msgs| else MessagesShown
    ensures r == msgs[..|r|]
  {
    if |msgs| < MessagesShown then msgs else msgs[..MessagesShown]
  }

  /** The events in the order they are pushed, before sorting. */
  function Pushed(d: Demand, msgs: seq<Message>, now: int): seq<Event> {
    [Created(d)] + Later(d, msgs, now)
  }

  /** The events pushed after the creation event. */
  function Later(d: Demand, msgs: seq<Message>, now: int): seq<Event> {
    (if d.consentGrantedAt.Some? then [Consented(d.consentGrantedAt.value)] else [])
    + (if ShowsAcceptance(d) then [Accepted(d, d.assignedVolunteerName.value)] else [])
    + MessageEvents(FirstMessages(msgs))
    + (if d.status == Concluida then [Concluded(now)] else [])
  }

  function DateKey(): Event -> Rank {
    (e: Event) => At(e.date as real)
  }

  /** `buildTimeline(d, msgs)`, with the clock reading `now` for the
      conclusion event: the pushed events sorted by ascending date, ties kept
      in push order. */
  function BuildTimeline(d: Demand, msgs: seq<Message>, now: int): (r: seq<Event>)
    ensures forall i, j :: 0 <= i < j < |r| ==> r[i].date <= r[j].date
    ensures multiset(r) == multiset(Pushed(d, msgs, now))
    ensures forall k :: KeyClass(DateKey(), k, r) == KeyClass(DateKey(), k, Pushed(d, msgs, now))
  {
    var r := Sort(DateKey(), Pushed(d, msgs, now));
    SortedByDate(r);
    r
  }

  lemma SortedByDate(r: seq<Event>)
    requires Sorted(DateKey(), r)
    ensures forall i, j :: 0 <= i < j < |r| ==> r[i].date <= r[j].date
  {
    forall i, j | 0 <= i < j < |r| ensures r[i].date <= r[j].date {
      assert RankLe(DateKey()(r[i]), DateKey()(r[j]));
    }
  }

  /** The pushed events are exactly the ones each condition calls for. */
  lemma PushedEvents(d: Demand, msgs: seq<Message>, now: int, e: Event)
    ensures e in Pushed(d, msgs, now) <==>
      || e == Created(d)
      || (d.consentGrantedAt.Some? && e == Consented(d.consentGrantedAt.value))
      || (ShowsAcceptance(d) && e == Accepted(d, d.assignedVolunteerName.value))
      || (exists i :: 0 <= i < |msgs| && i < MessagesShown && e == MessageEvent(msgs[i]))
      || (d.status == Concluida && e == Concluded(now))
  {
    var f := FirstMessages(msgs);
    var m := MessageEvents(f);
    if exists i :: 0 <= i < |msgs| && i < MessagesShown && e == MessageEvent(msgs[i]) {
      var i :| 0 <= i < |msgs| && i < MessagesShown && e == MessageEvent(msgs[i]);
      assert m[i] == e;
    }
    if e in m {
      var i :| 0 <= i < |m| && m[i] == e;
      assert e == MessageEvent(msgs[i]);
    }
  }

  /** The timeline holds one event per condition met and one per shown
      message, and nothing else. */
  lemma {:induction false} TimelineLength(d: Demand, msgs: seq<Message>, now: int)
    ensures |BuildTimeline(d, msgs, now)| ==
      1 + (if d.consentGrantedAt.Some? then 1 else 0) + (if ShowsAcceptance(d) then 1 else 0)
      + (if |msgs| < MessagesShown then |msgs| else MessagesShown) + (if d.status == Concluida then 1 else 0)
  {
    assert |multiset(BuildTimeline(d, msgs, now))| == |multiset(Pushed(d, msgs, now))|;
  }

  /** What the timeline holds: the creation, the consent when granted, the
      acceptance when shown, the first messages and the conclusion of a
      concluded case. */
  lemma TimelineHolds(d: Demand, msgs: seq<Message>, now: int, e: Event)
    ensures e in BuildTimeline(d, msgs, now) <==>
      || e == Created(d)
      || (d.consentGrantedAt.Some? && e == Consented(d.consentGrantedAt.value))
      || (ShowsAcceptance(d) && e == Accepted(d, d.assignedVolunteerName.value))
      || (exists i :: 0 <= i < |msgs| && i < MessagesShown && e == MessageEvent(msgs[i]))
      || (d.status == Concluida && e == Concluded(now))
  {
    assert e in BuildTimeline(d, msgs, now) <==> e in multiset(Pushed(d, msgs, now));
    PushedEvents(d, msgs, now, e);
  }

  /** The consent event appears exactly when consent was granted, dated then. */
  lemma ConsentShown(d: Demand, msgs: seq<Message>, now: int, t: int)
    ensures Consented(t) in BuildTimeline(d, msgs, now) <==> d.consentGrantedAt == Some(t)
  {
    TimelineHolds(d, msgs, now, Consented(t));
  }

  /** The acceptance event appears exactly for a case in progress with a
      non-empty volunteer name, and names that volunteer. */
  lemma AcceptanceShown(d: Demand, msgs: seq<Message>, now: int, n: string)
    ensures Accepted(d, n) in BuildTimeline(d, msgs, now) <==>
      d.status == EmProgresso && d.assignedVolunteerName == Some(n) && n != ""
  {
    TimelineHolds(d, msgs, now, Accepted(d, n));
  }

  /** The conclusion event appears exactly for a concluded case, dated now. */
  lemma ConclusionShown(d: Demand, msgs: seq<Message>, now: int, t: int)
    ensures Concluded(t) in BuildTimeline(d, msgs, now) <==> d.status == Concluida && t == now
  {
    TimelineHolds(d, msgs, now, Concluded(t));
  }

  /** Only the first three messages matter: later ones, such as a realtime
      insert into a chat that already has three, leave the timeline as it is. */
  lemma TimelineIgnoresLaterMessages(d: Demand, msgs: seq<Message>, more: seq<Message>, now: int)
    requires |msgs| >= MessagesShown
    ensures BuildTimeline(d, msgs + more, now) == BuildTimeline(d, msgs, now)
  {
    assert FirstMessages(msgs + more) == FirstMessages(msgs);
  }

  /** No event dated on or after the creation date comes before "Demanda
      criada": in particular the acceptance, which carries the same date,
      always follows it. */
  lemma CreatedLeadsItsDate(d: Demand, msgs: seq<Message>, now: int)
    ensures var r := BuildTimeline(d, msgs, now);
      exists i :: 0 <= i < |r| && r[i] == Created(d) && forall j :: 0 <= j < i ==> r[j].date < d.createdAt
  {
    var es := [Created(d)] + Later(d, msgs, now);
    var r := BuildTimeline(d, msgs, now);
    assert r == Sort(DateKey(), es);
    var i := HeadLeadsItsDate(es);
    assert r[i] == Created(d);
    assert forall j :: 0 <= j < i ==> r[j].date < d.createdAt;
  }

  /** The same for any pushed list: its first event leads its date. */
  lemma HeadLeadsItsDate(es: seq<Event>) returns (i: nat)
    requires |es| > 0
    ensures i < |Sort(DateKey(), es)| && Sort(DateKey(), es)[i] == es[0]
    ensures forall j :: 0 <= j < i ==> Sort(DateKey(), es)[j].date < es[0].date
  {
    var r := Sort(DateKey(), es);
    i := SortKeepsHeadFirstInRank(DateKey(), es);
    forall j | 0 <= j < i ensures r[j].date < es[0].date {
      assert DateKey()(r[j]) != DateKey()(es[0]) && RankLe(DateKey()(r[j]), DateKey()(es[0]));
    }
  }

  /** A concluded case pushes its conclusion last. */
  lemma LaterEndsConcluded(d: Demand, msgs: seq<Message>, now: int)
    requires d.status == Concluida
    ensures |Later(d, msgs, now)| > 0 && Later(d, msgs, now)[|Later(d, msgs, now)| - 1] == Concluded(now)
  {
  }

  /** Under the premises of `ConcludedIsLast`, no event pushed after the
      creation is dated after `now`. */
  lemma LaterNotAfter(d: Demand, msgs: seq<Message>, now: int, e: Event)
    requires d.createdAt <= now
    requires d.consentGrantedAt.Some? ==> d.consentGrantedAt.value <= now
    requires forall i :: 0 <= i < |msgs| && i < MessagesShown ==> msgs[i].createdAt <= now
    requires e in Later(d, msgs, now)
    ensures e.date <= now
  {
    var f := FirstMessages(msgs);
    var m := MessageEvents(f);
    var c := if d.consentGrantedAt.Some? then [Consented(d.consentGrantedAt.value)] else [];
    var a := if ShowsAcceptance(d) then [Accepted(d, d.assignedVolunteerName.value)] else [];
    var z := if d.status == Concluida then [Concluded(now)] else [];
    assert Later(d, msgs, now) == c + a + m + z;
    assert e in c || e in a || e in m || e in z;
    if e in m {
      var i :| 0 <= i < |m| && m[i] == e;
      assert f[i] == msgs[i] && i < MessagesShown;
      assert e.date == msgs[i].createdAt;
    }
  }

  /** Sorting by date keeps last an event pushed last that no other event
      postdates. */
  lemma LatestStaysLast(es: seq<Event>)
    requires |es| > 0
    requires forall i :: 0 <= i < |es| ==> es[i].date <= es[|es| - 1].date
    ensures Sort(DateKey(), es)[|es| - 1] == es[|es| - 1]
  {
    forall i | 0 <= i < |es| ensures RankLe(DateKey()(es[i]), DateKey()(es[|es| - 1])) {
    }
    SortKeepsMaxLast(DateKey(), es);
  }

  /** The same, with the creation event given by its date alone. */
  lemma ConclusionStaysLast(head: Event, d: Demand, msgs: seq<Message>, now: int)
    requires d.status == Concluida
    requires head.date == d.createdAt <= now
    requires d.consentGrantedAt.Some? ==> d.consentGrantedAt.value <= now
    requires forall i :: 0 <= i < |msgs| && i < MessagesShown ==> msgs[i].createdAt <= now
    ensures var es := [head] + Later(d, msgs, now);
      Sort(DateKey(), es)[|es| - 1] == Concluded(now)
  {
    var later := Later(d, msgs, now);
    var es := [head] + later;
    LaterEndsConcluded(d, msgs, now);
    forall i | 0 <= i < |es| ensures es[i].date <= es[|es| - 1].date {
      if i > 0 {
        assert es[i] == later[i - 1];
        LaterNotAfter(d, msgs, now, later[i - 1]);
      }
    }
    LatestStaysLast(es);
  }

  /** In a concluded case whose other events all lie no later than `now`,
      "Demanda concluída" closes the timeline. */
  lemma ConcludedIsLast(d: Demand, msgs: seq<Message>, now: int)
    requires d.status == Concluida
    requires d.createdAt <= now
    requires d.consentGrantedAt.Some? ==> d.consentGrantedAt.value <= now
    requires forall i :: 0 <= i < |msgs| && i < MessagesShown ==> msgs[i].createdAt <= now
    ensures var r := BuildTimeline(d, msgs, now);
      |r| > 0 && r[|r| - 1] == Concluded(now)
  {
    ConclusionStaysLast(Created(d), d, msgs, now);
  }
}
