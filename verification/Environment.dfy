/** What the model does not compute: the answers of devices, drivers and allocators. */
module Environment {

  /** The answers that will be given, one question after the other, and how many have been asked for. */
  class Answers {
    const good: nat -> bool
    var asked: nat
    var failed: bool

    /** `failed` says whether an answer given so far was an error, and nothing else. */
    ghost predicate Valid()
      reads this
    {
      failed <==> exists k :: 0 <= k < asked && !good(k)
    }

    constructor (good: nat -> bool)
      ensures Valid() && this.good == good && asked == 0 && !failed
    {
      this.good, asked, failed := good, 0, false;
    }

    method Ask() returns (ok: bool)
      requires Valid()
      modifies this
      ensures Valid() && asked == old(asked) + 1 && ok == good(old(asked)) && failed == (old(failed) || !ok)
    {
      ok := good(asked);
      if !ok { failed := true; }
      asked := asked + 1;
    }
  }
}
