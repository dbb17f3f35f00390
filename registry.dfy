/**
 * The broker's registry as values: what `Pion::entry`, `register` and
 * `exchange` compute from the map they see, and what follows for any
 * sequence of calls, each taken as one atomic step on the map.
 */
module Registry {
  import opened Wrappers
  import opened Status
  import opened Anchor

  /** dashmap's `Entry` for a key: the handle stored there, or nothing. */
  datatype Slot<H> = Occupied(key: Key, value: H) | Vacant(key: Key)

  /** Every entry of `m` is still in `m'`, with the same handle. */
  ghost predicate Extends<H>(m': map<Key, H>, m: map<Key, H>) {
    forall k :: k in m ==> k in m' && m'[k] == m[k]
  }

  /** `Pion::entry`: identify the anchor, then take the slot for its key. */
  function EntryOn<H>(m: map<Key, H>, fd: Descriptor): Result<Slot<H>, Error> {
    match Identify(fd)
    case Err(e) => Err(e)
    case Ok(k) => if k in m then Ok(Occupied(k, m[k])) else Ok(Vacant(k))
  }

  /**
   * `register`: the reply and the registry afterwards. It only ever adds an
   * entry, and a failed call leaves the registry as it was.
   */
  function RegisterOn<H>(m: map<Key, H>, fd: Descriptor, binder: H): (r: (Result<(), Error>, map<Key, H>))
    ensures Extends(r.1, m)
    ensures r.0.Err? ==> r.1 == m
    ensures r.0.Ok? <==> Identify(fd).Ok? && Identify(fd).value !in m
    ensures r.0.Ok? ==> r.1 == m[Identify(fd).value := binder]
    ensures Identify(fd).Err? ==> r.0 == Err(Identify(fd).error)
    ensures Identify(fd).Ok? && Identify(fd).value in m ==> r.0 == Err(RegisterFailed)
  {
    match EntryOn(m, fd)
    case Err(e) => (Err(e), m)
    case Ok(Occupied(_, _)) => (Err(RegisterFailed), m)
    case Ok(Vacant(k)) => (Ok(()), m[k := binder])
  }

  /**
   * `exchange`: a clone of the handle stored under the anchor's key, so
   * never a handle that was not registered there.
   */
  function ExchangeOn<H>(m: map<Key, H>, fd: Descriptor): (r: Result<H, Error>)
    ensures r.Ok? <==> Identify(fd).Ok? && Identify(fd).value in m
    ensures r.Ok? ==> r.value == m[Identify(fd).value]
    ensures Identify(fd).Err? ==> r == Err(Identify(fd).error)
    ensures Identify(fd).Ok? && Identify(fd).value !in m ==> r == Err(NotFound)
  {
    match EntryOn(m, fd)
    case Err(e) => Err(e)
    case Ok(Occupied(_, h)) => Ok(h)
    case Ok(Vacant(_)) => Err(NotFound)
  }

  lemma RegisterVacant<H>(m: map<Key, H>, fd: Descriptor, binder: H)
    requires Identify(fd).Ok? && Identify(fd).value !in m
    ensures RegisterOn(m, fd, binder) == (Ok(()), m[Identify(fd).value := binder])
  {
  }

  lemma RegisterOccupied<H>(m: map<Key, H>, fd: Descriptor, binder: H)
    requires Identify(fd).Ok? && Identify(fd).value in m
    ensures RegisterOn(m, fd, binder) == (Err(RegisterFailed), m)
  {
  }

  lemma ExchangeOccupied<H>(m: map<Key, H>, fd: Descriptor)
    requires Identify(fd).Ok? && Identify(fd).value in m
    ensures ExchangeOn(m, fd) == Ok(m[Identify(fd).value])
  {
  }

  lemma ExchangeVacant<H>(m: map<Key, H>, fd: Descriptor)
    requires Identify(fd).Ok? && Identify(fd).value !in m
    ensures ExchangeOn(m, fd) == Err(NotFound)
  {
  }

  /** A read-only file is refused by both operations, whether or not its key is taken. */
  lemma ReadonlyDenied<H>(m: map<Key, H>, fd: Descriptor, binder: H)
    requires Accessible(fd) && Readonly(fd.stat.value.mode)
    ensures RegisterOn(m, fd, binder) == (Err(Denied), m)
    ensures ExchangeOn(m, fd) == Err(Denied)
  {
  }

  /** A descriptor that cannot be cloned or stat'ed fails before the map is consulted. */
  lemma UnidentifiedFails<H>(m: map<Key, H>, fd: Descriptor, binder: H)
    requires !Accessible(fd)
    ensures RegisterOn(m, fd, binder) == (Err(Unidentified), m)
    ensures ExchangeOn(m, fd) == Err(Unidentified)
  {
  }

  /**
   * Register through one anchor, exchange through another naming the same
   * file (a hard link, a second open): the exchange returns the handle that
   * holds the key, which is the new one if the key was vacant and the
   * earlier one otherwise.
   */
  lemma RoundTripAcrossAnchors<H>(m: map<Key, H>, a: Descriptor, b: Descriptor, binder: H)
    requires Identify(a).Ok? && Identify(b).Ok?
    requires a.stat.value.dev == b.stat.value.dev && a.stat.value.ino == b.stat.value.ino
    ensures var k := Identify(a).value;
      ExchangeOn(RegisterOn(m, a, binder).1, b) == Ok(if k in m then m[k] else binder)
  {
    SameFileSameKey(a, b);
  }

  /** One call made to the broker. */
  datatype Call<H> = Register(fd: Descriptor, binder: H) | Exchange(fd: Descriptor)

  /** What the broker answered to one call. */
  datatype Reply<H> = Registered(result: Result<(), Error>) | Exchanged(handle: Result<H, Error>)

  /** One call as an atomic step: the reply and the registry afterwards. */
  function Step<H>(m: map<Key, H>, c: Call<H>): (Reply<H>, map<Key, H>) {
    match c
    case Register(fd, binder) =>
      var (r, m') := RegisterOn(m, fd, binder);
      (Registered(r), m')
    case Exchange(fd) => (Exchanged(ExchangeOn(m, fd)), m)
  }

  /** The registry after the calls, in order, starting from `m`. */
  function Run<H>(m: map<Key, H>, calls: seq<Call<H>>): map<Key, H>
    decreases |calls|
  {
    if calls == [] then m
    else Step(Run(m, calls[..|calls| - 1]), calls[|calls| - 1]).1
  }

  /** The reply to call `i`, made on the registry the earlier calls left. */
  function ReplyAt<H>(m: map<Key, H>, calls: seq<Call<H>>, i: nat): Reply<H>
    requires i < |calls|
  {
    Step(Run(m, calls[..i]), calls[i]).0
  }

  lemma RunSnoc<H>(m: map<Key, H>, calls: seq<Call<H>>, i: nat)
    requires i < |calls|
    ensures Run(m, calls[..i + 1]) == Step(Run(m, calls[..i]), calls[i]).1
  {
    assert calls[..i + 1][..i] == calls[..i];
  }

  /**
   * No call removes or replaces an entry: the registry after all the calls
   * extends the registry after any prefix of them.
   */
  lemma {:induction false} RunExtendsPrefix<H>(m: map<Key, H>, calls: seq<Call<H>>, n: nat)
    requires n <= |calls|
    ensures Extends(Run(m, calls), Run(m, calls[..n]))
    decreases |calls|
  {
    if n < |calls| {
      var prefix := calls[..|calls| - 1];
      assert prefix[..n] == calls[..n];
      RunExtendsPrefix(m, prefix, n);
      StepExtends(Run(m, prefix), calls[|calls| - 1]);
    } else {
      assert calls[..n] == calls;
    }
  }

  /** One call keeps every entry. */
  lemma StepExtends<H>(m: map<Key, H>, c: Call<H>)
    ensures Extends(Step(m, c).1, m)
  {
  }

  /** The registry only grows: everything in the starting registry survives any calls. */
  lemma {:induction false} OnlyGrows<H>(m: map<Key, H>, calls: seq<Call<H>>)
    ensures Extends(Run(m, calls), m)
  {
    RunExtendsPrefix(m, calls, 0);
  }

  /**
   * A register call that succeeds fixes its key's handle for good: after any
   * later calls the registry still maps the key to that call's handle.
   */
  lemma {:induction false} FirstWriterWins<H>(m: map<Key, H>, calls: seq<Call<H>>, i: nat)
    requires i < |calls| && calls[i].Register?
    requires ReplyAt(m, calls, i) == Registered(Ok(()))
    ensures Identify(calls[i].fd).Ok?
    ensures var k := Identify(calls[i].fd).value; k in Run(m, calls) && Run(m, calls)[k] == calls[i].binder
  {
    RunSnoc(m, calls, i);
    RunExtendsPrefix(m, calls, i + 1);
  }

  /** Two successful register calls never name the same key. */
  lemma {:induction false} SingleFlight<H>(m: map<Key, H>, calls: seq<Call<H>>, i: nat, j: nat)
    requires i < j < |calls| && calls[i].Register? && calls[j].Register?
    requires ReplyAt(m, calls, i) == Registered(Ok(()))
    requires ReplyAt(m, calls, j) == Registered(Ok(()))
    ensures Identify(calls[i].fd).value != Identify(calls[j].fd).value
  {
    assert calls[..j][i] == calls[i];
    assert calls[..j][..i] == calls[..i];
    FirstWriterWins(m, calls[..j], i);
  }

  /**
   * After a successful register, every later exchange through an anchor
   * with the same key returns the registered handle.
   */
  lemma {:induction false} ExchangeAfterRegister<H>(m: map<Key, H>, calls: seq<Call<H>>, i: nat, j: nat)
    requires i < j < |calls| && calls[i].Register? && calls[j].Exchange?
    requires ReplyAt(m, calls, i) == Registered(Ok(()))
    requires Identify(calls[j].fd) == Identify(calls[i].fd)
    ensures ReplyAt(m, calls, j) == Exchanged(Ok(calls[i].binder))
  {
    assert calls[..j][i] == calls[i];
    assert calls[..j][..i] == calls[..i];
    FirstWriterWins(m, calls[..j], i);
  }

  /**
   * Many callers race to register on one vacant key: whatever order the
   * calls are serialised in, the first succeeds, every other one fails with
   * service-specific error 1, and the key ends up holding the first handle.
   */
  lemma {:induction false} ContendedRegister<H>(m: map<Key, H>, calls: seq<Call<H>>, k: Key)
    requires |calls| > 0 && k !in m
    requires forall i :: 0 <= i < |calls| ==> calls[i].Register? && Identify(calls[i].fd) == Ok(k)
    ensures ReplyAt(m, calls, 0) == Registered(Ok(()))
    ensures forall i :: 0 < i < |calls| ==> ReplyAt(m, calls, i) == Registered(Err(RegisterFailed))
    ensures k in Run(m, calls) && Run(m, calls)[k] == calls[0].binder
  {
    assert calls[..0] == [];
    FirstWriterWins(m, calls, 0);
    forall i | 0 < i < |calls|
      ensures ReplyAt(m, calls, i) == Registered(Err(RegisterFailed))
    {
      FirstWriterWins(m, calls[..i], 0);
      assert calls[..i][0] == calls[0] && calls[..i][..0] == calls[..0];
    }
  }

  /**
   * Every key the calls added was put there by a successful register call
   * whose anchor names that key.
   */
  lemma {:induction false} KeyOrigin<H>(m: map<Key, H>, calls: seq<Call<H>>, k: Key)
    requires k in Run(m, calls) && k !in m
    ensures exists i :: (0 <= i < |calls| && calls[i].Register? && Identify(calls[i].fd) == Ok(k)
                         && ReplyAt(m, calls, i) == Registered(Ok(())))
    decreases |calls|
  {
    var n := |calls|;
    var prefix := calls[..n - 1];
    assert calls[..n - 1] == prefix;
    if k in Run(m, prefix) {
      KeyOrigin(m, prefix, k);
      var i :| 0 <= i < |prefix| && prefix[i].Register? && Identify(prefix[i].fd) == Ok(k)
        && ReplyAt(m, prefix, i) == Registered(Ok(()));
      assert prefix[..i] == calls[..i] && prefix[i] == calls[i];
      assert ReplyAt(m, calls, i) == Registered(Ok(()));
    } else {
      assert calls[n - 1].Register?;
      assert ReplyAt(m, calls, n - 1) == Registered(Ok(()));
    }
  }

  /**
   * On a key that starts vacant, the first register call through an anchor
   * naming it succeeds, however other calls are interleaved before it.
   */
  lemma {:induction false} FirstRegisterSucceeds<H>(m: map<Key, H>, calls: seq<Call<H>>, j: nat, k: Key)
    requires j < |calls| && k !in m
    requires calls[j].Register? && Identify(calls[j].fd) == Ok(k)
    requires forall i :: 0 <= i < j ==> !(calls[i].Register? && Identify(calls[i].fd) == Ok(k))
    ensures ReplyAt(m, calls, j) == Registered(Ok(()))
  {
    if k in Run(m, calls[..j]) {
      KeyOrigin(m, calls[..j], k);
      assert false;
    }
  }

  /**
   * An exchange on a key that starts vacant and that no earlier call tried
   * to register fails with "couldn't find object".
   */
  lemma {:induction false} ExchangeBeforeRegisterNotFound<H>(m: map<Key, H>, calls: seq<Call<H>>, j: nat, k: Key)
    requires j < |calls| && k !in m
    requires calls[j].Exchange? && Identify(calls[j].fd) == Ok(k)
    requires forall i :: 0 <= i < j ==> !(calls[i].Register? && Identify(calls[i].fd) == Ok(k))
    ensures ReplyAt(m, calls, j) == Exchanged(Err(NotFound))
  {
    if k in Run(m, calls[..j]) {
      KeyOrigin(m, calls[..j], k);
      assert false;
    }
  }
}
