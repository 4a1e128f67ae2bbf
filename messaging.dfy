/** Messages delivered to a game session (messaging.py).

    Only `BaseMessage` and `CtrlMessage` are defined in messaging.py; the
    subclasses the game dispatches on (player control, session control,
    gameplay) are declared here with just the fields the game reads. */
module Messaging {

  /** `MessagePrioritiesEnum.CTRL`. */
  const CTRL_PRIORITY: int := 0

  /** The class-level default priority of `BaseMessage`. */
  const BASE_PRIORITY: int := 0

  datatype PlayerCtrlType = Register | Leave | OtherPlayerCtrl

  datatype SessionCtrlType = Init | Run | Stop | Restart

  /** The concrete class of a message, with the fields the game reads. */
  datatype Payload =
    | Plain                                         // a bare BaseMessage
    | CtrlPlain                                     // a bare CtrlMessage
    | PlayerCtrl(kind: PlayerCtrlType, playerId: string)
    | SessionCtrl(sessionKind: SessionCtrlType)
    | GamePlay
  {
    /** Whether the class derives from `CtrlMessage`. */
    predicate IsCtrl() {
      CtrlPlain? || PlayerCtrl? || SessionCtrl?
    }
  }

  datatype Message = Message(payload: Payload, priority: int)

  /** A message built through `BaseMessage` alone keeps the class default priority. */
  function NewBaseMessage(payload: Payload): (m: Message)
    requires !payload.IsCtrl()
    ensures m.payload == payload && m.priority == 0
  {
    Message(payload, BASE_PRIORITY)
  }

  /** `CtrlMessage.__init__` fixes the priority to the CTRL level. */
  function NewCtrlMessage(payload: Payload): (m: Message)
    requires payload.IsCtrl()
    ensures m.payload == payload && m.priority == 0
  {
    Message(payload, CTRL_PRIORITY)
  }

  /** `__cmp__`: a message comes before another exactly when its priority is smaller. */
  predicate Precedes(a: Message, b: Message)
  {
    a.priority < b.priority
  }

  /** The priority order is a strict weak order: ties are exactly equal priorities. */
  lemma PrecedesIsStrictOrder(a: Message, b: Message, c: Message)
    ensures Precedes(a, b) <==> a.priority < b.priority
    ensures !Precedes(a, a)
    ensures Precedes(a, b) ==> !Precedes(b, a)
    ensures Precedes(a, b) && Precedes(b, c) ==> Precedes(a, c)
    ensures Precedes(a, b) || Precedes(b, a) || a.priority == b.priority
  {
  }

  /** Two control messages never precede one another: they all share one priority. */
  lemma CtrlMessagesTie(p: Payload, q: Payload)
    requires p.IsCtrl() && q.IsCtrl()
    ensures !Precedes(NewCtrlMessage(p), NewCtrlMessage(q))
    ensures !Precedes(NewCtrlMessage(q), NewCtrlMessage(p))
  {
  }
}
