/** A conversation's candidates and its mesh together: the book decides the priority,
    which is all that the mesh's caps depend on. */
module Session {
  import opened Ordering
  import opened Candidates
  import MeshInvariant
  import MeshEffects
  import MeshTable
  import Discovery

  datatype Session = Session(book: Book, mesh: MeshTable.State)

  /** `Apply` hands the ranking to the mesh; nothing else sets its priority. */
  datatype Event = Note(op: BookOp) | Apply(now: nat) | Act(meshOp: MeshTable.Op)

  /** What the mesh is given: the viable candidates of the book. */
  function Priority(book: Book, now: nat): MeshTable.Op
    requires Filed(book)
  {
    MeshTable.SetPriority(Viable(book, MeshTable.Seconds(now)), now)
  }

  function Step(p: Policy, s: Session, e: Event, sessions: nat -> string): (t: Session)
    requires Filed(s.book)
    ensures Filed(t.book)
  {
    match e
    case Note(op) =>
      StepKeepsFiled(p, s.book, op);
      s.(book := BookStep(p, s.book, op))
    case Apply(now) => s.(mesh := MeshTable.Step(s.mesh, Priority(s.book, now), sessions))
    case Act(op) => if op.SetPriority? then s else s.(mesh := MeshTable.Step(s.mesh, op, sessions))
  }

  function Run(p: Policy, me: string, events: seq<Event>, sessions: nat -> string): (s: Session)
    ensures Filed(s.book)
  {
    if |events| == 0 then Session(NewBook(), MeshTable.Init(me))
    else Step(p, Run(p, me, events[..|events| - 1], sessions), events[|events| - 1], sessions)
  }

  /** Observations reach the book alone, the mesh's own events the mesh alone, and the
      ranking of the book becomes the priority of the mesh. */
  lemma WhoIsTouched(p: Policy, s: Session, e: Event, sessions: nat -> string)
    requires Filed(s.book)
    ensures var t := Step(p, s, e, sessions);
            && (e.Note? ==> t.mesh == s.mesh && t.book == BookStep(p, s.book, e.op))
            && (!e.Note? ==> t.book == s.book)
            && (e.Act? && !e.meshOp.SetPriority? ==> t.mesh == MeshTable.Step(s.mesh, e.meshOp, sessions))
            && (e.Apply? ==>
                  && t.mesh.priority == Discovery.NodesOf(Ranked(s.book, e.now / 1000))
                  && t.mesh
                     == MeshTable.Step(s.mesh.(priority := t.mesh.priority), MeshTable.FreeSlot(e.now), sessions))
  {
    if e.Apply? {
      MeshEffects.PriorityEffect(s.mesh, Viable(s.book, e.now / 1000), sessions, e.now);
      var order := Discovery.NodesOf(Discovery.RankCandidates(Viable(s.book, e.now / 1000), e.now / 1000));
      MeshEffects.FillingKeepsPriority(s.mesh.(priority := order), sessions, e.now);
    }
    hide Viable, BookStep, Filed;
  }

  /** A book in order never hands the mesh a node twice. */
  lemma PriorityIsKeyed(book: Book, now: nat)
    requires Filed(book)
    ensures MeshTable.Keyed(Priority(book, now))
  {
    ViableAreKeyed(book, MeshTable.Seconds(now));
    hide Viable;
  }

  lemma {:induction false} RunKeepsInv(p: Policy, me: string, events: seq<Event>, sessions: nat -> string)
    ensures MeshInvariant.Inv(Run(p, me, events, sessions).mesh)
  {
    if |events| > 0 {
      var s, e := Run(p, me, events[..|events| - 1], sessions), events[|events| - 1];
      RunKeepsInv(p, me, events[..|events| - 1], sessions);
      hide MeshInvariant.Inv, MeshTable.Step, Priority, Filed;
      if e.Apply? {
        PriorityIsKeyed(s.book, e.now);
        MeshInvariant.StepKeeps(s.mesh, Priority(s.book, e.now), sessions);
      } else if e.Act? && !e.meshOp.SetPriority? {
        MeshInvariant.StepKeeps(s.mesh, e.meshOp, sessions);
      }
    } else {
      MeshInvariant.RunKeepsInv(me, [], sessions);
    }
  }

  /** Whatever relays, peers' tables and peers send, and however the steps interleave:
      at most 16 links, at most 8 of them opened by us, each of those to a node with a
      larger id, no link to ourselves, and every connection ever made is the current one
      of its node or was closed. */
  lemma MeshStaysBounded(p: Policy, me: string, events: seq<Event>, sessions: nat -> string)
    ensures var mesh := Run(p, me, events, sessions).mesh;
            && |mesh.links| <= MeshTable.MAX_TOTAL_LINKS
            && |MeshInvariant.Initiated(mesh.links)| <= MeshTable.MAX_ACTIVE_LINKS
            && (forall n :: n in mesh.links && mesh.links[n].initiator ==> StrLess(mesh.me, n))
            && mesh.me !in mesh.links
            && (forall k: nat :: k < mesh.created ==> k in mesh.closed <==> !MeshInvariant.Held(mesh.links, k))
  {
    RunKeepsInv(p, me, events, sessions);
    hide Run;
  }
}
