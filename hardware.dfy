/** HwController (pi-cooler.py:36-73): a named GPIO pin that a peripheral claims in a
    process-wide registry when it is initialized and gives back when it is closed.
    The class attribute HwController.allPins becomes a Registry object that every
    controller is handed; a peripheral (PowerLED, PowerButton, CoolerFan) holds a
    Pin instead of inheriting from HwController. */
module Hardware {
  import opened Wrappers
  import opened Text

  /** The key a pin is registered under: its name, lower-cased. */
  function Key(name: string): (k: string)
    ensures |k| == |name|
    ensures Lower(k) == k
  {
    LowerIdempotent(name);
    Lower(name)
  }

  /** HwController.allPins: the keys of the pins in use. The ghost map says which
      controller holds each key. */
  class Registry {
    var inUse: set<string>
    ghost var owners: map<string, Pin>

    /** Every key in use has exactly one owner, which is initialized and registered
        under that key. */
    ghost predicate Valid()
      reads this, owners.Values
    {
      owners.Keys == inUse &&
      forall k :: k in owners ==> owners[k].registry == this && owners[k].initialized && Key(owners[k].name) == k
    }

    constructor ()
      ensures Valid() && inUse == {} && owners == map[]
    {
      inUse := {};
      owners := map[];
    }
  }

  /** One HwController: the stripped pin name, the reversed flag and whether the pin
      is claimed. The gpiozero device behind ioPin belongs to the peripheral. */
  class Pin {
    const registry: Registry
    const name: string
    var reversed: bool
    var initialized: bool

    /** The registry is consistent and, while this pin is initialized, it owns its
        key there. */
    ghost predicate Valid()
      reads this, registry, registry.owners.Values
    {
      registry.Valid() && name != [] &&
      (initialized ==> Key(name) in registry.owners && registry.owners[Key(name)] == this)
    }

    constructor (name: string, reversed: bool, registry: Registry)
      requires name != [] && registry.Valid()
      ensures Valid() && !initialized
      ensures this.name == name && this.reversed == reversed && this.registry == registry
    {
      this.name := name;
      this.reversed := reversed;
      this.registry := registry;
      initialized := false;
    }

    /** HwController.__init__: the name is stripped, and an empty or white-space-only
        name is rejected. Nothing is registered yet. */
    static method Create(pin: string, reversed: bool, registry: Registry) returns (r: Result<Pin, Error>)
      requires registry.Valid()
      ensures r.Failure? <==> Strip(pin) == []
      ensures r.Failure? ==> r.error == EmptyPin
      ensures r.Success? ==> fresh(r.value) && r.value.Valid() && !r.value.initialized
      ensures r.Success? ==> r.value.name == Strip(pin) && r.value.reversed == reversed && r.value.registry == registry
    {
      var name := Strip(pin);
      if name == [] {
        return Failure(EmptyPin);
      }
      var p := new Pin(name, reversed, registry);
      return Success(p);
    }

    /** HwController.initialize: claims the lower-cased name. Does nothing when already
        initialized; fails, changing nothing, when another controller holds the name. */
    method Initialize() returns (r: Outcome<Error>)
      requires Valid()
      modifies this, registry
      ensures Valid() && reversed == old(reversed)
      ensures old(initialized) ==> r.Pass? && initialized && registry.inUse == old(registry.inUse)
      ensures !old(initialized) && Key(name) in old(registry.inUse) ==>
        r == Fail(PinInUse(name)) && !initialized && registry.inUse == old(registry.inUse)
      ensures !old(initialized) && Key(name) !in old(registry.inUse) ==>
        r.Pass? && initialized && registry.inUse == old(registry.inUse) + {Key(name)}
      ensures r.Pass? <==> initialized
      ensures forall q: Pin :: q != this && q.registry == registry && old(allocated(q) && q.Valid()) ==> q.Valid()
    {
      if initialized {
        return Pass;
      }
      var key := Key(name);
      if key in registry.inUse {
        return Fail(PinInUse(name));
      }
      registry.inUse := registry.inUse + {key};
      registry.owners := registry.owners[key := this];
      initialized := true;
      return Pass;
    }

    /** HwController.setReversed: ignored once the pin is initialized. */
    method SetReversed(reversed: bool)
      requires Valid()
      modifies this
      ensures Valid() && initialized == old(initialized)
      ensures this.reversed == if old(initialized) then old(this.reversed) else reversed
    {
      if initialized {
        return;
      }
      this.reversed := reversed;
    }

    /** HwController.close: gives the name back. Does nothing when not initialized. */
    method Close()
      requires Valid()
      modifies this, registry
      ensures Valid() && !initialized && reversed == old(reversed)
      ensures registry.inUse == if old(initialized) then old(registry.inUse) - {Key(name)} else old(registry.inUse)
      ensures forall q: Pin :: q != this && q.registry == registry && old(allocated(q) && q.Valid()) ==> q.Valid()
    {
      if !initialized {
        return;
      }
      var key := Key(name);
      registry.inUse := registry.inUse - {key};
      registry.owners := registry.owners - {key};
      initialized := false;
    }
  }

  /** At most one live owner per pin: two initialized controllers of one registry
      whose names agree case-insensitively are the same controller. */
  lemma OneOwnerPerPin(p: Pin, q: Pin)
    requires p.Valid() && q.Valid() && p.registry == q.registry
    requires p.initialized && q.initialized && Key(p.name) == Key(q.name)
    ensures p == q
  {
  }

  /** A registered key belongs to an initialized controller of that name. */
  lemma InUseOwned(r: Registry, k: string)
    requires r.Valid() && k in r.inUse
    ensures r.owners[k].initialized && Key(r.owners[k].name) == k
  {
  }
}
