/** The Santa / elves / reindeer rendezvous of lab9/main.c as an atomic-step
    transition system.  Every section the program runs under `ctx->lock`, and every
    semaphore operation, is one method of `Workshop`; a thread that would block
    becomes a precondition (the step is not enabled).  Threads are identified by
    their index: elf `e` for 0 <= e < MAXELF, reindeer `r` for 0 <= r < MAXREIN; the
    index stands for the elf's gettid(), which is what `elfids` stores. */
module Santa {
  import opened Common

  const MAXELF := 10
  const MAXELFWAIT := 3
  const MAXREIN := 9
  const MAXREINWAIT := 9
  /** Santa's outer loop runs `while (deliveries < 3)`. */
  const DELIVERY_LIMIT := 3

  /** Where an elf thread is in its loop.
      Working:  napping, before sem_wait(&elfslots_sem);
      Admitted: holds an admission slot, has not yet registered under the mutex;
      Queued:   registered, blocked in sem_wait(&elf_sem);
      Helped:   took a permit, has not yet posted its admission slot back. */
  datatype ElfPhase = Working | Admitted | Queued | Helped

  /** Vacation: napping; Home: registered, blocked in sem_wait(&reindeer_sem). */
  datatype ReindeerPhase = Vacation | Home

  /** Holding: Santa owns the mutex (it keeps it for its whole loop except inside
      pthread_cond_wait); Waiting: inside pthread_cond_wait, or not yet past its first
      pthread_mutex_lock; Exited: left the loop and unlocked the mutex. */
  datatype SantaPhase = Holding | Waiting | Exited

  /** What one pass of Santa's decision body did: a delivery, or a consultation
      reported with the ids it read from `elfids`. */
  datatype SantaAction = Deliver | Consult(ids: seq<int>)

  class Workshop {
    var reindeer: int
    var elves: int
    var elfids: array<int>
    var reindeerSem: nat
    var elfSem: nat
    var elfSlotsSem: nat
    var deliveries: nat
    var santa: SantaPhase
    var elfPhase: seq<ElfPhase>
    var reindeerPhase: seq<ReindeerPhase>

    /** The invariant every step keeps.  A semaphore's value plus the threads that
        took from it and have not given back add up to its initial value; every
        queued thread is either counted in its group's counter or has a permit
        waiting for it. */
    ghost predicate Valid()
      reads this, elfids
    {
      elfids.Length == MAXELFWAIT &&
      |elfPhase| == MAXELF && |reindeerPhase| == MAXREIN &&
      0 <= reindeer && 0 <= elves &&
      elfSlotsSem + Count(elfPhase, Admitted) + Count(elfPhase, Queued) + Count(elfPhase, Helped) == MAXELFWAIT &&
      Count(elfPhase, Queued) == elves + elfSem &&
      Count(reindeerPhase, Home) == reindeer + reindeerSem &&
      deliveries <= DELIVERY_LIMIT &&
      (santa == Exited <==> deliveries == DELIVERY_LIMIT) &&
      (forall j :: 0 <= j < elves && j < MAXELFWAIT ==> 0 <= elfids[j] < MAXELF)
    }

    /** The condition of Santa's inner `while`: it stops waiting once it holds. */
    predicate SantaMayProceed()
      reads this
    {
      reindeer >= MAXREINWAIT || elves >= MAXELFWAIT
    }

    /** Whether a worker can take the mutex. */
    predicate MutexFree()
      reads this
    {
      santa != Holding
    }

    /** calloc(sizeof(ctx_t), 1) followed by init_ctx: counters 0, elfids zeroed,
        reindeer_sem and elf_sem at 0, elfslots_sem at MAXELFWAIT; every thread at the
        top of its loop. */
    constructor ()
      ensures Valid() && fresh(elfids)
      ensures reindeer == 0 && elves == 0 && elfids[..] == [0, 0, 0]
      ensures reindeerSem == 0 && elfSem == 0 && elfSlotsSem == MAXELFWAIT
      ensures deliveries == 0 && santa == Waiting
      ensures elfPhase == seq(MAXELF, _ => Working) && reindeerPhase == seq(MAXREIN, _ => Vacation)
    {
      reindeer, elves := 0, 0;
      elfids := new int[MAXELFWAIT](_ => 0);
      reindeerSem, elfSem, elfSlotsSem := 0, 0, MAXELFWAIT;
      deliveries := 0;
      santa := Waiting;
      elfPhase := seq(MAXELF, _ => Working);
      reindeerPhase := seq(MAXREIN, _ => Vacation);
      new;
      CountAbsent(elfPhase, Admitted);
      CountAbsent(elfPhase, Queued);
      CountAbsent(elfPhase, Helped);
      CountAbsent(reindeerPhase, Home);
    }

    /** The counters never leave the bounded waiting room. */
    lemma Bounds()
      requires Valid()
      ensures 0 <= elves <= MAXELFWAIT && 0 <= reindeer <= MAXREINWAIT
    {
    }

    /** Santa takes the mutex: its first pthread_mutex_lock, or the re-acquisition
        inside pthread_cond_wait after a signal or a spurious wakeup. */
    method SantaAcquire()
      requires Valid() && santa == Waiting
      modifies this
      ensures Valid() && santa == Holding
      ensures reindeer == old(reindeer) && elves == old(elves) && deliveries == old(deliveries)
      ensures reindeerSem == old(reindeerSem) && elfSem == old(elfSem) && elfSlotsSem == old(elfSlotsSem)
      ensures elfPhase == old(elfPhase) && reindeerPhase == old(reindeerPhase) && elfids == old(elfids)
    {
      santa := Holding;
    }

    /** One test of the inner while that finds neither threshold reached:
        pthread_cond_wait releases the mutex. */
    method SantaSleep()
      requires Valid() && santa == Holding && !SantaMayProceed()
      modifies this
      ensures Valid() && santa == Waiting
      ensures reindeer == old(reindeer) && elves == old(elves) && deliveries == old(deliveries)
      ensures reindeerSem == old(reindeerSem) && elfSem == old(elfSem) && elfSlotsSem == old(elfSlotsSem)
      ensures elfPhase == old(elfPhase) && reindeerPhase == old(reindeerPhase) && elfids == old(elfids)
    {
      santa := Waiting;
    }

    /** Santa's decision body, run with the mutex held once the inner while is left.
        Delivery has priority over consultation.  A delivery posts MAXREINWAIT reindeer
        permits, zeroes `reindeer` and counts itself; a consultation reports the ids in
        `elfids`, posts MAXELFWAIT elf permits and zeroes `elves` but leaves `elfids`
        as it was.  After the third delivery Santa leaves its outer loop and unlocks. */
    method SantaServe() returns (action: SantaAction)
      requires Valid() && santa == Holding && SantaMayProceed()
      modifies this
      ensures Valid()
      ensures action == Deliver <==> old(reindeer) >= MAXREINWAIT
      ensures action == Deliver ==> old(reindeer) == MAXREINWAIT && old(reindeerSem) == 0
      ensures action == Deliver ==>
        reindeer == 0 && reindeerSem == MAXREINWAIT && deliveries == old(deliveries) + 1 &&
        elves == old(elves) && elfSem == old(elfSem)
      ensures action.Consult? ==>
        old(elves) == MAXELFWAIT && old(elfSem) == 0 &&
        action.ids == old(elfids[..]) &&
        (forall j :: 0 <= j < |action.ids| ==> 0 <= action.ids[j] < MAXELF) &&
        elves == 0 && elfSem == MAXELFWAIT &&
        reindeer == old(reindeer) && reindeerSem == old(reindeerSem) && deliveries == old(deliveries)
      ensures santa == (if deliveries == DELIVERY_LIMIT then Exited else Holding)
      ensures elfSlotsSem == old(elfSlotsSem) && elfPhase == old(elfPhase) && reindeerPhase == old(reindeerPhase)
      ensures elfids == old(elfids) && elfids[..] == old(elfids[..])
    {
      if reindeer >= MAXREINWAIT {
        var j := 0;
        while j < MAXREINWAIT
          invariant 0 <= j <= MAXREINWAIT
          invariant reindeerSem == old(reindeerSem) + j
          modifies this`reindeerSem
        {
          reindeerSem := reindeerSem + 1;
          j := j + 1;
        }
        reindeer := 0;
        deliveries := deliveries + 1;
        action := Deliver;
      } else if elves >= MAXELFWAIT {
        action := Consult(elfids[..]);
        var j := 0;
        while j < MAXELFWAIT
          invariant 0 <= j <= MAXELFWAIT
          invariant elfSem == old(elfSem) + j
          modifies this`elfSem
        {
          elfSem := elfSem + 1;
          j := j + 1;
        }
        elves := 0;
      } else {
        assert false;
      }
      if deliveries == DELIVERY_LIMIT {
        santa := Exited;
      }
    }

    /** A reindeer back from vacation: `reindeer++` under the mutex, signalling
        Santa when the count reaches MAXREINWAIT. */
    method ReindeerRegister(r: nat) returns (signal: bool)
      requires Valid() && r < MAXREIN && reindeerPhase[r] == Vacation && MutexFree()
      modifies this
      ensures Valid()
      ensures reindeer == old(reindeer) + 1 && reindeer <= MAXREINWAIT
      ensures signal <==> reindeer >= MAXREINWAIT
      ensures reindeerPhase == old(reindeerPhase)[r := Home]
      ensures elves == old(elves) && deliveries == old(deliveries) && santa == old(santa)
      ensures reindeerSem == old(reindeerSem) && elfSem == old(elfSem) && elfSlotsSem == old(elfSlotsSem)
      ensures elfPhase == old(elfPhase) && elfids == old(elfids)
    {
      CountUpdate(reindeerPhase, r, Home, Home);
      reindeerPhase := reindeerPhase[r := Home];
      reindeer := reindeer + 1;
      signal := reindeer >= MAXREINWAIT;
    }

    /** sem_wait(&reindeer_sem) returns: the reindeer goes on vacation again. */
    method ReindeerConsume(r: nat)
      requires Valid() && r < MAXREIN && reindeerPhase[r] == Home && reindeerSem > 0
      modifies this
      ensures Valid()
      ensures reindeerSem == old(reindeerSem) - 1 && reindeerPhase == old(reindeerPhase)[r := Vacation]
      ensures reindeer == old(reindeer) && elves == old(elves) && deliveries == old(deliveries) && santa == old(santa)
      ensures elfSem == old(elfSem) && elfSlotsSem == old(elfSlotsSem)
      ensures elfPhase == old(elfPhase) && elfids == old(elfids)
    {
      CountUpdate(reindeerPhase, r, Vacation, Home);
      reindeerPhase := reindeerPhase[r := Vacation];
      reindeerSem := reindeerSem - 1;
    }

    /** sem_wait(&elfslots_sem) returns: the elf may now register. */
    method ElfTakeSlot(e: nat)
      requires Valid() && e < MAXELF && elfPhase[e] == Working && elfSlotsSem > 0
      modifies this
      ensures Valid()
      ensures elfSlotsSem == old(elfSlotsSem) - 1 && elfPhase == old(elfPhase)[e := Admitted]
      ensures reindeer == old(reindeer) && elves == old(elves) && deliveries == old(deliveries) && santa == old(santa)
      ensures reindeerSem == old(reindeerSem) && elfSem == old(elfSem)
      ensures reindeerPhase == old(reindeerPhase) && elfids == old(elfids)
    {
      CountUpdate(elfPhase, e, Admitted, Admitted);
      CountUpdate(elfPhase, e, Admitted, Queued);
      CountUpdate(elfPhase, e, Admitted, Helped);
      elfPhase := elfPhase[e := Admitted];
      elfSlotsSem := elfSlotsSem - 1;
    }

    /** An elf with a problem, under the mutex: `elfids[elves] = gettid(); elves++`,
        signalling Santa when `elves` reaches MAXELFWAIT.  The admission slot the elf
        holds is what keeps the index in bounds. */
    method ElfRegister(e: nat) returns (signal: bool)
      requires Valid() && e < MAXELF && elfPhase[e] == Admitted && MutexFree()
      modifies this, elfids
      ensures Valid()
      ensures old(elves) < MAXELFWAIT
      ensures elves == old(elves) + 1 && elfids[..] == old(elfids[..])[old(elves) := e]
      ensures signal <==> elves >= MAXELFWAIT
      ensures elfPhase == old(elfPhase)[e := Queued]
      ensures reindeer == old(reindeer) && deliveries == old(deliveries) && santa == old(santa)
      ensures reindeerSem == old(reindeerSem) && elfSem == old(elfSem) && elfSlotsSem == old(elfSlotsSem)
      ensures reindeerPhase == old(reindeerPhase) && elfids == old(elfids)
    {
      CountPositive(elfPhase, e);
      CountUpdate(elfPhase, e, Queued, Admitted);
      CountUpdate(elfPhase, e, Queued, Queued);
      CountUpdate(elfPhase, e, Queued, Helped);
      elfPhase := elfPhase[e := Queued];
      elfids[elves] := e;
      elves := elves + 1;
      signal := elves >= MAXELFWAIT;
    }

    /** sem_wait(&elf_sem) returns: "problem solved". */
    method ElfConsume(e: nat)
      requires Valid() && e < MAXELF && elfPhase[e] == Queued && elfSem > 0
      modifies this
      ensures Valid()
      ensures elfSem == old(elfSem) - 1 && elfPhase == old(elfPhase)[e := Helped]
      ensures reindeer == old(reindeer) && elves == old(elves) && deliveries == old(deliveries) && santa == old(santa)
      ensures reindeerSem == old(reindeerSem) && elfSlotsSem == old(elfSlotsSem)
      ensures reindeerPhase == old(reindeerPhase) && elfids == old(elfids)
    {
      CountUpdate(elfPhase, e, Helped, Admitted);
      CountUpdate(elfPhase, e, Helped, Queued);
      CountUpdate(elfPhase, e, Helped, Helped);
      elfPhase := elfPhase[e := Helped];
      elfSem := elfSem - 1;
    }

    /** sem_post(&elfslots_sem): the elf gives its admission slot back only after its
        problem was solved. */
    method ElfRelease(e: nat)
      requires Valid() && e < MAXELF && elfPhase[e] == Helped
      modifies this
      ensures Valid()
      ensures elfSlotsSem == old(elfSlotsSem) + 1 && elfPhase == old(elfPhase)[e := Working]
      ensures reindeer == old(reindeer) && elves == old(elves) && deliveries == old(deliveries) && santa == old(santa)
      ensures reindeerSem == old(reindeerSem) && elfSem == old(elfSem)
      ensures reindeerPhase == old(reindeerPhase) && elfids == old(elfids)
    {
      CountUpdate(elfPhase, e, Working, Admitted);
      CountUpdate(elfPhase, e, Working, Queued);
      CountUpdate(elfPhase, e, Working, Helped);
      elfPhase := elfPhase[e := Working];
      elfSlotsSem := elfSlotsSem + 1;
    }
  }

  /** One whole pass of an elf through its loop while permits of an earlier
      consultation are still outstanding: it is admitted, registers, takes one of
      those permits at once and gives its slot back. */
  method ElfPassOnOldPermit(w: Workshop, e: nat)
    requires w.Valid() && e < MAXELF && w.elfPhase[e] == Working
    requires w.elfSlotsSem > 0 && w.MutexFree() && w.elfSem > 0
    modifies w, w.elfids
    ensures w.Valid()
    ensures w.elves == old(w.elves) + 1 && w.elfids[..] == old(w.elfids[..])[old(w.elves) := e]
    ensures w.elfSem == old(w.elfSem) - 1 && w.elfSlotsSem == old(w.elfSlotsSem)
    ensures w.elfPhase == old(w.elfPhase) && w.santa == old(w.santa) && w.reindeer == old(w.reindeer)
    ensures w.elfids == old(w.elfids)
  {
    w.ElfTakeSlot(e);
    var _ := w.ElfRegister(e);
    w.ElfConsume(e);
    w.ElfRelease(e);
  }

  /** Elves 0, 1 and 2 register from the initial state; the third one signals Santa. */
  method ThreeElvesQueued() returns (w: Workshop)
    ensures fresh(w) && fresh(w.elfids) && w.Valid()
    ensures w.elves == 3 && w.elfids[..] == [0, 1, 2] && w.elfSem == 0 && w.elfSlotsSem == 0
    ensures w.elfPhase[0] == Queued && w.elfPhase[1] == Queued && w.elfPhase[2] == Queued
    ensures w.elfPhase[3] == Working && w.santa == Waiting && w.reindeer == 0
  {
    w := new Workshop();
    w.ElfTakeSlot(0);
    var signal := w.ElfRegister(0);
    w.ElfTakeSlot(1);
    signal := w.ElfRegister(1);
    w.ElfTakeSlot(2);
    signal := w.ElfRegister(2);
    assert signal;
  }

  /** A run the steps above allow: elf_sem does not know which consultation a permit
      belongs to.  Elf 3 registers after the consultation of elves 0, 1 and 2, takes
      two of the permits issued for elves 1 and 2, and so fills every entry of `elfids`
      on its own while elves 1 and 2 are still blocked; the next consultation reports
      elf 3 three times. */
  method PermitOvertaking() returns (action: SantaAction, stillBlocked: seq<ElfPhase>)
    ensures stillBlocked == [Queued, Queued]
    ensures action == Consult([3, 3, 3])
  {
    var w := FirstConsultation();
    ElfPassOnOldPermit(w, 3);
    ElfPassOnOldPermit(w, 3);
    w.ElfTakeSlot(3);
    var signal := w.ElfRegister(3);
    stillBlocked := [w.elfPhase[1], w.elfPhase[2]];
    w.SantaAcquire();
    action := w.SantaServe();
  }

  /** Santa consults elves 0, 1 and 2 and goes back to sleep; elf 0 takes its permit
      and returns its slot, while elves 1 and 2 have not run yet. */
  method FirstConsultation() returns (w: Workshop)
    ensures fresh(w) && fresh(w.elfids) && w.Valid()
    ensures w.elves == 0 && w.elfSem == 2 && w.elfSlotsSem == 1 && w.santa == Waiting && w.reindeer == 0
    ensures w.elfPhase[1] == Queued && w.elfPhase[2] == Queued && w.elfPhase[3] == Working
  {
    w := ThreeElvesQueued();
    w.SantaAcquire();
    var action := w.SantaServe();
    assert action == Consult([0, 1, 2]);
    w.SantaSleep();
    w.ElfConsume(0);
    w.ElfRelease(0);
  }
}
