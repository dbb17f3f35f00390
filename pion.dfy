/**
 * The broker object: one registry, updated in place by `register` and only
 * read by `exchange`. Each method is one atomic step on the map, the
 * sequential view of dashmap's per-key locking.
 */
module Broker {
  import opened Wrappers
  import opened Status
  import opened Anchor
  import opened Registry

  class Pion<H> {
    /** The registry: rendezvous key to capability handle. */
    var registry: map<Key, H>

    /** `Pion::default()`: an empty registry. */
    constructor ()
      ensures registry == map[]
    {
      registry := map[];
    }

    /** `Pion::entry`: identify the anchor and take its key's slot; the registry is only read. */
    method Entry(fd: Descriptor) returns (r: Result<Slot<H>, Error>)
      ensures r == EntryOn(registry, fd)
      ensures r.Ok? ==> r.value.key == Identify(fd).value && (r.value.Occupied? <==> r.value.key in registry)
    {
      if !fd.cloneOk {
        return Err(Unidentified);
      }
      if fd.stat.None? {
        return Err(Unidentified);
      }
      var meta := fd.stat.value;
      if Readonly(meta.mode) {
        return Err(Denied);
      }
      var k := (meta.dev, meta.ino);
      if k in registry {
        r := Ok(Occupied(k, registry[k]));
      } else {
        r := Ok(Vacant(k));
      }
    }

    /** `register`: insert the handle if the anchor's key is vacant, never overwrite. */
    method Register(fd: Descriptor, binder: H) returns (r: Result<(), Error>)
      modifies this
      ensures (r, registry) == RegisterOn(old(registry), fd, binder)
      ensures Extends(registry, old(registry))
    {
      var e := Entry(fd);
      match e
      case Err(err) =>
        r := Err(err);
      case Ok(Occupied(_, _)) =>
        r := Err(RegisterFailed);
      case Ok(Vacant(k)) =>
        registry := registry[k := binder];
        r := Ok(());
    }

    /** `exchange`: a clone of the stored handle; the registry is not changed. */
    method Exchange(fd: Descriptor) returns (r: Result<H, Error>)
      ensures r == ExchangeOn(registry, fd)
      ensures r.Ok? ==> Identify(fd).value in registry && r.value == registry[Identify(fd).value]
    {
      var e := Entry(fd);
      match e
      case Err(err) =>
        r := Err(err);
      case Ok(Occupied(_, h)) =>
        r := Ok(h);
      case Ok(Vacant(_)) =>
        r := Err(NotFound);
    }
  }

  /**
   * The demonstration client: register a service through an anchor, then
   * exchange through the same anchor. A failed reply ends the run with that
   * reply's error, as its `unwrap` would, so a failed register is never
   * followed by an exchange. A register that succeeds is always followed by
   * an exchange that hands back that very service.
   */
  method SimpleService<H>(pion: Pion<H>, fd: Descriptor, service: H) returns (r: Result<H, Error>)
    modifies pion
    ensures Identify(fd).Err? ==> r == Err(Identify(fd).error) && pion.registry == old(pion.registry)
    ensures Identify(fd).Ok? && Identify(fd).value in old(pion.registry) ==>
      r == Err(RegisterFailed) && pion.registry == old(pion.registry)
    ensures Identify(fd).Ok? && Identify(fd).value !in old(pion.registry) ==>
      r == Ok(service) && pion.registry == old(pion.registry)[Identify(fd).value := service]
  {
    var registered := pion.Register(fd, service);
    if registered.Err? {
      return Err(registered.error);
    }
    r := pion.Exchange(fd);
  }
}
