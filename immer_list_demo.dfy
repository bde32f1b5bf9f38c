/**
 * src/demo-useCallback_useMemoizedFn.jsx: a list of people whose last entry
 * is edited through Immer drafts, and a click handler that issues one
 * hundred such edits in a row. Each queued functional update is applied in
 * order, so the handler is a loop over the list state.
 */
module ImmerListDemo {

  datatype Person = Person(name: string, age: int)

  const InitialPerson := Person("张三", 18)

  /** The name every click writes at step 50. */
  const RenamedTo := "李四"

  /** What the step with counter i writes into the last entry. */
  function Step(p: Person, i: int): (q: Person)
    ensures i == 50 ==> q == p.(name := RenamedTo)
    ensures i != 50 ==> q == p.(age := i)
  {
    if i == 50 then p.(name := RenamedTo) else p.(age := i)
  }

  /** The last entry after steps lo, lo + 1, ..., hi - 1. */
  function Steps(p: Person, lo: int, hi: int): Person
    requires lo <= hi
    decreases hi - lo
  {
    if lo == hi then p else Step(Steps(p, lo, hi - 1), hi - 1)
  }

  /**
   * After the hundred steps the last entry is named 李四 and is 99, whatever it
   * was before: step 50 renames it, and step 99 is the last age written.
   */
  lemma {:induction false} HundredSteps(p: Person)
    ensures Steps(p, 0, 100) == Person(RenamedTo, 99)
  {
    StepsAfterRename(p, 100);
  }

  /** From step 51 on the name stays 李四, and the age is the last step's counter. */
  lemma {:induction false} StepsAfterRename(p: Person, hi: int)
    requires 52 <= hi
    ensures Steps(p, 0, hi) == Person(RenamedTo, hi - 1)
    decreases hi
  {
    if hi == 52 {
      AgeBeforeRename(p, 50);
      assert Steps(p, 0, 51) == Step(Steps(p, 0, 50), 50);
    } else {
      StepsAfterRename(p, hi - 1);
    }
  }

  /** Before step 50 only the age changes; the name is the one the entry started with. */
  lemma {:induction false} AgeBeforeRename(p: Person, hi: int)
    requires 0 <= hi <= 50
    ensures Steps(p, 0, hi).name == p.name
    ensures hi > 0 ==> Steps(p, 0, hi).age == hi - 1
    decreases hi
  {
    if hi > 0 {
      AgeBeforeRename(p, hi - 1);
    }
  }

  class ListDemo {
    var list: seq<Person>

    /** The list is never empty, so it always has a last entry to edit. */
    predicate Valid()
      reads this
    {
      |list| > 0
    }

    constructor()
      ensures Valid()
      ensures list == [InitialPerson]
    {
      list := [InitialPerson];
    }

    /** `updateLastItemName(name)`: only the last entry's name changes. */
    method UpdateLastItemName(name: string)
      requires Valid()
      modifies this
      ensures Valid()
      ensures |list| == |old(list)|
      ensures list[..|list| - 1] == old(list)[..|list| - 1]
      ensures list[|list| - 1] == old(list)[|list| - 1].(name := name)
    {
      var last := |list| - 1;
      list := list[last := list[last].(name := name)];
    }

    /** `updateLastItemAge(age)`: only the last entry's age changes. */
    method UpdateLastItemAge(age: int)
      requires Valid()
      modifies this
      ensures Valid()
      ensures |list| == |old(list)|
      ensures list[..|list| - 1] == old(list)[..|list| - 1]
      ensures list[|list| - 1] == old(list)[|list| - 1].(age := age)
    {
      var last := |list| - 1;
      list := list[last := list[last].(age := age)];
    }

    /**
     * `handleClick`: one hundred edits of the last entry. Only that entry
     * changes, and it ends as {name: 李四, age: 99}.
     */
    method HandleClick()
      requires Valid()
      modifies this
      ensures Valid()
      ensures |list| == |old(list)|
      ensures list[..|list| - 1] == old(list)[..|list| - 1]
      ensures list[|list| - 1] == Steps(old(list)[|list| - 1], 0, 100)
      ensures list[|list| - 1] == Person(RenamedTo, 99)
    {
      var i := 0;
      while i < 100
        invariant 0 <= i <= 100
        invariant Valid()
        invariant |list| == |old(list)|
        invariant list[..|list| - 1] == old(list)[..|list| - 1]
        invariant list[|list| - 1] == Steps(old(list)[|list| - 1], 0, i)
      {
        if i == 50 {
          UpdateLastItemName(RenamedTo);
        } else {
          UpdateLastItemAge(i);
        }
        i := i + 1;
      }
      HundredSteps(old(list)[|list| - 1]);
    }
  }
}
