/** What a puzzle handler hands back besides its new state: notifications for the
    player and callbacks it schedules on the timer. The delays themselves are not
    modelled; whoever drives the model fires a scheduled callback by applying the
    transition it names. */
module Effects {

  datatype ToastKind = Info | Success | Error

  datatype Effect =
    | Notify(kind: ToastKind, text: string)
      /** present the round (the cell reveal) */
    | ScheduleShow
      /** play back the given tokens (the colour sequence drawn by the scheduling call) */
    | ScheduleShowOf(tokens: seq<int>)
      /** start a fresh round after a wrong answer */
    | ScheduleRestart
      /** call the orchestrator's completion callback */
    | ScheduleComplete

  /** A handler's outcome: the state after it and the effects it emitted, in order. */
  datatype Step<S> = Step(state: S, effects: seq<Effect>)

  /** The emoji the success notifications end with. */
  const PartyPopper: string := "\U{1F389}"
  const Brain: string := "\U{1F9E0}"
  const DirectHit: string := "\U{1F3AF}"
}
