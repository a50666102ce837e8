/** One cell of the partitionable Game of Life. Each tick the cell tallies
    the states its neighbours sent, computes its next state from the alive
    tally and multicasts that state.

    The circular buffer of received payloads is the sequence `input`, and
    the multicast link is the sequence `sent` of payloads sent so far.
 */
module ConwaysCell {

  const DEAD: nat := 0
  const ALIVE: nat := 1

  /** The birth/survival rule: a cell is alive next tick when exactly three
      neighbours are alive, or when it is alive and exactly two are. A state
      that is neither ALIVE nor DEAD is kept unless a birth replaces it. */
  function LifeRule(state: nat, aliveNeighbours: int): (next: nat)
    ensures state == ALIVE && aliveNeighbours <= 1 ==> next == DEAD
    ensures state == ALIVE && (aliveNeighbours == 2 || aliveNeighbours == 3) ==> next == ALIVE
    ensures state == ALIVE && aliveNeighbours >= 4 ==> next == DEAD
    ensures state != ALIVE && aliveNeighbours == 3 ==> next == ALIVE
    ensures state != ALIVE && aliveNeighbours != 3 ==> next == state
  {
    if aliveNeighbours == 3 || (state == ALIVE && aliveNeighbours == 2) then ALIVE
    else if state == ALIVE then DEAD
    else state
  }

  /** Over the two proper states the rule is the standard one: the result
      is again a proper state, and it is ALIVE exactly on a birth or a
      survival. */
  lemma LifeRuleIsStandard(state: nat, n: int)
    requires state == DEAD || state == ALIVE
    ensures LifeRule(state, n) == DEAD || LifeRule(state, n) == ALIVE
    ensures LifeRule(state, n) == ALIVE <==> n == 3 || (state == ALIVE && n == 2)
  {
  }

  /** How many times payload `p` occurs in `s`. */
  function Count(s: seq<nat>, p: nat): nat
  {
    if s == [] then 0
    else Count(s[..|s| - 1], p) + (if s[|s| - 1] == p then 1 else 0)
  }

  /** Dead and alive payloads together are never more than the payloads. */
  lemma {:induction false} CountBound(s: seq<nat>)
    ensures Count(s, DEAD) + Count(s, ALIVE) <= |s|
  {
    if s != [] {
      CountBound(s[..|s| - 1]);
    }
  }

  /** The number of payloads one call of `ReadInputBuffer` takes. */
  function Taken(pending: seq<nat>): (n: nat)
    ensures n <= 8 && n <= |pending|
    ensures n < 8 ==> n == |pending|
  {
    if |pending| < 8 then |pending| else 8
  }

  class Cell {
    /** `my_state`. */
    var state: nat
    /** `alive_states_recieved_this_tick`. */
    var alive: int
    /** `dead_states_recieved_this_tick`. */
    var dead: int
    /** Payloads received and not yet read, oldest first. */
    var input: seq<nat>
    /** Payloads multicast so far, oldest first. */
    var sent: seq<nat>

    /** The cell as `initialize` sets it up: its initial state and the
        neighbours' alive and dead counts for tick 0 are loaded, and nothing
        has been sent yet. */
    constructor(initial: nat, initialAlive: int, initialDead: int, received: seq<nat>)
      ensures state == initial && alive == initialAlive && dead == initialDead
      ensures input == received && sent == []
    {
      state, alive, dead := initial, initialAlive, initialDead;
      input, sent := received, [];
    }

    /** Applies the rule to the cell's state using the alive tally. */
    method NextState()
      modifies this
      ensures state == LifeRule(old(state), alive)
      ensures alive == old(alive) && dead == old(dead) && input == old(input) && sent == old(sent)
    {
      if state == 1 {
        if alive <= 1 {
          state := DEAD;
        }
        if alive == 2 || alive == 3 {
          state := ALIVE;
        }
        if alive >= 4 {
          state := DEAD;
        }
      } else if alive == 3 {
        state := ALIVE;
      }
    }

    /** Makes eight attempts to read a payload. A DEAD payload adds one to
        the dead tally, an ALIVE payload one to the alive tally; any other
        payload, or an attempt on an empty buffer, changes neither. */
    method ReadInputBuffer()
      modifies this
      ensures var read := old(input)[..Taken(old(input))];
        && input == old(input)[Taken(old(input))..]
        && alive == old(alive) + Count(read, ALIVE)
        && dead == old(dead) + Count(read, DEAD)
      ensures (alive - old(alive)) + (dead - old(dead)) <= 8
      ensures state == old(state) && sent == old(sent)
    {
      ghost var pending := input;
      for counter := 0 to 8
        invariant var n := |pending| - |input|;
          && 0 <= n <= counter && (n < counter ==> input == [])
          && input == pending[n..]
          && alive == old(alive) + Count(pending[..n], ALIVE)
          && dead == old(dead) + Count(pending[..n], DEAD)
        invariant state == old(state) && sent == old(sent)
      {
        ghost var n := |pending| - |input|;
        if input != [] {
          var payload := input[0];
          input := input[1..];
          assert pending[..n + 1][..n] == pending[..n] && pending[n] == payload;
          if payload == DEAD {
            dead := dead + 1;
          } else if payload == ALIVE {
            alive := alive + 1;
          }
        }
      }
      CountBound(pending[..Taken(pending)]);
    }

    /** Resets both tallies and sends the cell's state. */
    method SendState()
      modifies this
      ensures alive == 0 && dead == 0
      ensures sent == old(sent) + [state]
      ensures state == old(state) && input == old(input)
    {
      alive, dead := 0, 0;
      sent := sent + [state];
    }
  }
}
