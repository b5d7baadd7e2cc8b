/** The three-way match decision of `bibfile_process` and the yes/no prompt that
    settles the middle band. */
module Policy {
  import opened Wrappers

  datatype Decision = Reject | Accept | Ask

  /** Either score at or below 1/2 rejects; otherwise both at or above 9/10
      accept; anything else asks the user. */
  function Decide(titleSim: real, authorSim: real): (d: Decision)
    ensures d == Reject <==> titleSim <= 0.5 || authorSim <= 0.5
    ensures d == Accept <==> titleSim >= 0.9 && authorSim >= 0.9
    ensures d == Ask <==> 0.5 < titleSim && 0.5 < authorSim && (titleSim < 0.9 || authorSim < 0.9)
  {
    if titleSim <= 0.5 || authorSim <= 0.5 then Reject
    else if titleSim >= 0.9 && authorSim >= 0.9 then Accept
    else Ask
  }

  /** How far a decision goes towards inserting. */
  function Rank(d: Decision): nat
  {
    match d
    case Reject => 0
    case Ask => 1
    case Accept => 2
  }

  /** Raising either score never moves the decision away from inserting. */
  lemma DecideMonotone(t: real, a: real, t': real, a': real)
    requires t <= t' && a <= a'
    ensures Rank(Decide(t, a)) <= Rank(Decide(t', a'))
  {
  }

  /** The boundary values: 0.5 rejects, 0.9 accepts. */
  lemma DecideBoundaries()
    ensures Decide(0.5, 1.0) == Reject
    ensures Decide(0.51, 0.89) == Ask
    ensures Decide(0.9, 0.9) == Accept
    ensures Decide(0.4, 0.95) == Reject
  {
  }

  /** What the prompt loop obtained: the answer and the replies not yet read. */
  datatype Answer = Answer(yes: bool, rest: seq<string>)

  predicate IsAnswer(reply: string)
  {
    reply == "y" || reply == "n"
  }

  /** The `while resp != "y" and resp != "n"` loop reading `input()`: replies
      other than "y" and "n" are skipped; `None` when the replies run out first
      (`input()` raises EOFError). */
  function Confirm(replies: seq<string>): Option<Answer>
  {
    if replies == [] then None
    else if replies[0] == "y" then Some(Answer(true, replies[1..]))
    else if replies[0] == "n" then Some(Answer(false, replies[1..]))
    else Confirm(replies[1..])
  }

  /** The prompt settles on the first "y" or "n" among the replies, says yes
      exactly when that reply is "y", and leaves the replies after it unread;
      it fails exactly when there is no such reply. */
  lemma {:induction false} ConfirmFirstAnswer(replies: seq<string>)
    ensures Confirm(replies).None? <==> forall j :: 0 <= j < |replies| ==> !IsAnswer(replies[j])
    ensures Confirm(replies).Some? ==>
              var i := |replies| - |Confirm(replies).value.rest| - 1;
              0 <= i < |replies| && IsAnswer(replies[i])
              && (forall j :: 0 <= j < i ==> !IsAnswer(replies[j]))
              && Confirm(replies).value.yes == (replies[i] == "y")
              && Confirm(replies).value.rest == replies[i + 1..]
  {
    if replies != [] && !IsAnswer(replies[0]) {
      ConfirmFirstAnswer(replies[1..]);
      assert forall j :: 1 <= j < |replies| ==> replies[j] == replies[1..][j - 1];
    }
  }
}
