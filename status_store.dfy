/**
 * The zustand store of src/demo-zustand.jsx: a status string and a counter,
 * each with a setter that leaves the other field alone. `set` merges the
 * update into the state synchronously, so a read right after it sees it.
 */
module StatusStore {

  const InitialStatus := "idle"

  class Store {
    var status: string
    var count: int

    constructor()
      ensures status == InitialStatus && count == 0
    {
      status := InitialStatus;
      count := 0;
    }

    /** `setStatus(s)`: the status becomes s; the count is unchanged. */
    method SetStatus(s: string)
      modifies this
      ensures status == s && count == old(count)
    {
      status := s;
    }

    /** `increment()`: the count goes up by exactly one; the status is unchanged. */
    method Increment()
      modifies this
      ensures count == old(count) + 1 && status == old(status)
    {
      count := count + 1;
    }

    /** `getState().count`. */
    function Count(): int
      reads this
    {
      count
    }

    /** The app's `handleClick`: increments, then reads the state back, which already holds the new count. */
    method HandleClick() returns (seen: int)
      modifies this
      ensures seen == old(count) + 1 && seen == count
      ensures status == old(status)
    {
      Increment();
      seen := Count();
    }
  }
}
