/** The DMA safety latch of the xHCI driver (kernel/usb_xhci.c, kernel/usb_bot.c). Register
    reads, descriptors and completions are arbitrary; what is recorded is every touch of memory
    the controller may own, whether the latch was set when it happened, whether the memory
    belonged to a slot that the controller had enabled and not yet let go of, and for an entry put
    on a ring how many before it the controller had not reported back. */
module XhciDriver {
  import XhciRing

  datatype Kind = RingWrite | RingInit | ContextInit | ScratchWrite | Recycle
  datatype Touch = Touch(kind: Kind, latched: bool, held: bool, ahead: nat)

  /** Nothing was ever touched with the latch set, nothing was recycled that the controller still
      held, and no ring was written with as many entries outstanding as it may have. */
  predicate Safe(log: seq<Touch>) {
    forall i | 0 <= i < |log| :: SafeTouch(log[i])
  }

  predicate SafeTouch(t: Touch) {
    !t.latched && !(t.kind.Recycle? && t.held) && t.ahead < XhciRing.IN_FLIGHT
  }

  /** An entry put on a ring with the latch clear, `ahead` entries after one reported back. */
  function Handed(ahead: nat): Touch {
    Touch(RingWrite, false, false, ahead)
  }

  datatype Device = Device(used: bool, slot: nat, port: nat, storage: bool, failed: bool)

  const EMPTY := Device(false, 0, 0, false, false)
  const MAX_DEVICES: nat := 6
  const NO_SLOTS: seq<set<nat>> := seq(MAX_DEVICES, _ => {})

  /** A record knows the slot the controller holds for it, and an unused record has none. */
  ghost predicate SlotKnown(d: Device, held: set<nat>) {
    held <= (if d.slot == 0 then {} else {d.slot}) && (!d.used ==> d.slot == 0)
  }

  class Driver {
    var dmaUnsafe: bool
    var initialized: bool
    var running: bool
    var busy: bool
    var ready: bool
    var mouseReady: bool
    var ports: nat
    var maxDevices: nat
    var devices: seq<Device>
    /** Indices into `devices`, -1 for none. */
    var keyboard: int
    var mouse: int
    var disks: seq<int>
    var current: nat
    ghost var log: seq<Touch>
    /** For each record, the slots the controller has enabled for it and not acknowledged as
        disabled. Only acknowledged commands change this. */
    ghost var held: seq<set<nat>>

    /** Entries of the call under way that the controller has not reported back. */
    ghost var pending: nat
    /** Report requests the keyboard and the mouse have and have not answered. */
    var keyboardArmed: nat
    var mouseArmed: nat

    /** Between calls nothing is outstanding but the report requests, unless the latch is set. */
    ghost predicate Valid()
      reads this
    {
      Sound() && (dmaUnsafe || pending == 0)
    }

    ghost predicate Sound()
      reads this
    {
      && |devices| == MAX_DEVICES && 1 <= maxDevices <= MAX_DEVICES && current < MAX_DEVICES
      && |disks| == 4 && (forall d | 0 <= d < 4 :: -1 <= disks[d] < MAX_DEVICES)
      && Safe(log) && keyboardArmed <= 1 && mouseArmed <= 1
      && |held| == MAX_DEVICES && forall i | 0 <= i < MAX_DEVICES :: SlotKnown(devices[i], held[i])
    }

    /** The latch never opens, and once it is closed nothing is touched. */
    twostate predicate Latched()
      reads this
    {
      old(log) <= log && (old(dmaUnsafe) ==> dmaUnsafe && log == old(log) && held == old(held))
    }

    constructor ()
      ensures Valid() && !dmaUnsafe && log == []
    {
      dmaUnsafe, initialized, running, busy, ready, mouseReady := false, false, false, false, false, false;
      ports, maxDevices, current := 1, 1, 0;
      devices := seq(MAX_DEVICES, _ => EMPTY);
      keyboard, mouse := -1, -1;
      disks := [-1, -1, -1, -1];
      log, held := [], NO_SLOTS;
      pending, keyboardArmed, mouseArmed := 0, 0, 0;
    }

    /** No device record has been recycled, claimed or given another slot. */
    twostate predicate DevicesHeld()
      requires |old(devices)| == MAX_DEVICES == |devices|
      reads this
    {
      forall i | 0 <= i < MAX_DEVICES :: devices[i].(failed := old(devices)[i].failed) == old(devices)[i]
    }

    // ----- touches -----

    method Touching(kind: Kind)
      modifies this`log
      ensures log == old(log) + [Touch(kind, dmaUnsafe, false, 0)]
    {
      log := log + [Touch(kind, dmaUnsafe, false, 0)];
    }

    /** Hands the controller one more entry of the ring in use. */
    method Enqueue()
      requires Sound() && !dmaUnsafe && pending < XhciRing.IN_FLIGHT
      modifies this`log, this`pending
      ensures Sound() && pending == old(pending) + 1 && log == old(log) + [Handed(old(pending))]
    {
      log := log + [Touch(RingWrite, dmaUnsafe, false, pending)];
      pending := pending + 1;
    }

    /** Clears a record, and with it the memory its slot used. */
    method Recycling(dev: nat)
      requires dev < MAX_DEVICES == |devices| == |held|
      modifies this`log, this`devices
      ensures log == old(log) + [Touch(Recycle, dmaUnsafe, held[dev] != {}, 0)]
      ensures devices == old(devices)[dev := EMPTY]
    {
      log := log + [Touch(Recycle, dmaUnsafe, held[dev] != {}, 0)];
      devices := devices[dev := EMPTY];
    }

    /** Any answer the hardware may give. */
    method Answer() returns (b: bool)
    {
      b := *;
    }

    // ----- transfers -----

    method ArmReport(isMouse: bool)
      requires Sound() && !dmaUnsafe && (if isMouse then mouseArmed else keyboardArmed) == 0
      modifies this`log, this`keyboardArmed, this`mouseArmed
      ensures Sound() && log == old(log) + [Handed(0)]
    {
      if isMouse {
        log := log + [Touch(RingWrite, dmaUnsafe, false, mouseArmed)];
        mouseArmed := mouseArmed + 1;
      } else {
        log := log + [Touch(RingWrite, dmaUnsafe, false, keyboardArmed)];
        keyboardArmed := keyboardArmed + 1;
      }
    }

    /** An event that nobody is waiting for: the answer to a report request, which arms the next
        one, or something else. */
    method KeyboardEvent()
      requires Sound() && !dmaUnsafe
      modifies this`log, this`ready, this`mouseReady, this`keyboardArmed, this`mouseArmed
      ensures Sound() && old(log) <= log
    {
      var isMouse := Answer();
      var failed := Answer();
      if (if isMouse then mouseArmed else keyboardArmed) == 0 { return; }
      if isMouse { mouseArmed := mouseArmed - 1; } else { keyboardArmed := keyboardArmed - 1; }
      if isMouse && !mouseReady { return; }
      if !isMouse && !ready { return; }
      if failed {
        if isMouse { mouseReady := false; } else { ready := false; }
        return;
      }
      ArmReport(isMouse);
    }

    /** Polls for a completion; only a timeout sets the latch. */
    method WaitEvent() returns (rc: int)
      requires Sound() && !dmaUnsafe && busy
      modifies this
      ensures Valid() && Unmoved()
      ensures rc in {0, -1, -3} && (dmaUnsafe <==> rc == -3)
    {
      var ticks: nat := *;
      while ticks > 0
        invariant Sound() && !dmaUnsafe && Unmoved()
        decreases ticks
      {
        ticks := ticks - 1;
        Interrupt();
        var arrived := Answer();
        if !arrived { continue; }
        var ours := Answer();
        if !ours {
          KeyboardEvent();
          continue;
        }
        pending := 0; // the last entry has been reported back, and with it those before it
        var good := Answer();
        return if good then 0 else -1;
      }
      dmaUnsafe := true;
      return -3;
    }

    /** The controller as a whole is as it was. */
    twostate predicate Settled()
      reads this
    {
      && running == old(running) && initialized == old(initialized) && busy == old(busy)
      && ports == old(ports) && maxDevices == old(maxDevices) && old(log) <= log
    }

    /** Everything but the latch, the reports and the log is as it was. */
    twostate predicate Unmoved()
      reads this
    {
      && devices == old(devices) && disks == old(disks) && current == old(current)
      && keyboard == old(keyboard) && mouse == old(mouse) && held == old(held)
      && Settled()
    }

    method Command() returns (rc: int)
      requires Valid() && busy
      modifies this
      ensures Valid() && Latched() && Unmoved()
      ensures rc in {0, -1, -3} && (dmaUnsafe <==> rc == -3)
      ensures !old(dmaUnsafe) ==> old(log) + [Handed(0)] <= log
    {
      if dmaUnsafe { return -3; }
      Enqueue();
      rc := WaitEvent();
      if rc == -3 { dmaUnsafe := true; }
    }

    method Control(hasData: bool) returns (rc: int)
      requires Valid() && !dmaUnsafe && busy
      modifies this
      ensures Valid() && Unmoved() && rc in {0, -1, -3} && (dmaUnsafe <==> rc == -3)
      ensures old(log) + [Handed(0), Handed(1)] + (if hasData then [Handed(2)] else []) <= log
    {
      Enqueue();
      if hasData { Enqueue(); }
      Enqueue();
      rc := WaitEvent();
    }

    method Descriptor() returns (rc: int)
      requires Valid() && !dmaUnsafe && busy
      modifies this
      ensures Valid() && Unmoved() && (rc == 0 ==> !dmaUnsafe)
    {
      var tooLong := Answer();
      if tooLong { return -1; }
      Touching(ScratchWrite);
      rc := Control(true);
    }

    /** Asks for a slot for the current record; what the controller answers is stored as it is. */
    method EnableSlot() returns (rc: int)
      requires Valid() && !dmaUnsafe && busy && devices[current].used && devices[current].slot == 0
      modifies this
      ensures Valid() && Settled() && rc in {0, -1, -3} && (dmaUnsafe <==> rc == -3)
      ensures rc != 0 ==> Unmoved()
      ensures rc == 0 ==> current == old(current)
    {
      rc := Command();
      if rc != 0 { return; }
      var slot: nat := *;
      devices := devices[current := devices[current].(slot := slot)];
      if slot != 0 { held := held[current := {slot}]; }
    }

    /** Asks the controller to let go of a record's slot; anything but its consent is an error. */
    method DisableSlot(dev: nat) returns (rc: int)
      requires Valid() && busy && dev < MAX_DEVICES
      modifies this
      ensures Valid() && rc in {0, -1, -3} && (dmaUnsafe <==> rc == -3)
      ensures devices == old(devices) && disks == old(disks) && current == old(current) && Settled()
      ensures keyboard == old(keyboard) && mouse == old(mouse)
      ensures held == if rc == 0 then old(held)[dev := {}] else old(held)
      ensures old(dmaUnsafe) ==> rc != 0 && log == old(log)
      ensures !old(dmaUnsafe) ==> old(log) + [Handed(0)] <= log
    {
      rc := Command();
      if rc == 0 { held := held[dev := {}]; }
    }

    // ----- enumeration -----

    /** The first disk number not taken, or 4. */
    method FreeDisk() returns (disk: nat)
      requires |disks| == 4
      ensures disk <= 4 && (disk < 4 ==> disks[disk] < 0) && forall d | 0 <= d < disk :: disks[d] >= 0
    {
      disk := 0;
      while disk < 4 && disks[disk] >= 0
        invariant 0 <= disk <= 4 && forall d | 0 <= d < disk :: disks[d] >= 0
      {
        disk := disk + 1;
      }
    }

    /** Starts two rings afresh and hands the controller the context that names them. */
    method NewRings() returns (rc: int)
      requires Valid() && !dmaUnsafe && busy
      modifies this
      ensures Valid() && Unmoved() && (rc == 0 ==> !dmaUnsafe)
    {
      Touching(RingInit);
      Touching(RingInit);
      Touching(ContextInit);
      rc := Command(); // configure endpoint, or address device
    }

    method ConfigureStorage() returns (rc: int)
      requires Valid() && !dmaUnsafe && busy
      modifies this
      ensures Valid() && Settled() && (rc == 1 ==> !dmaUnsafe)
    {
      var parsed := Answer();
      if !parsed { return -1; }
      var disk := FreeDisk();
      if disk == 4 { return -1; }
      rc := Control(false);
      if rc != 0 { return -1; }
      rc := NewRings();
      if rc != 0 { return -1; }
      devices := devices[current := devices[current].(storage := true)];
      disks := disks[disk := current];
      return 1;
    }

    /** Resets a port, addresses the device and configures it, giving up at the first failure. */
    method KeyboardOnPort(port: nat) returns (rc: int)
      requires Valid() && !dmaUnsafe && busy && devices[current].used && devices[current].slot == 0
      modifies this
      ensures Valid() && Settled() && (rc == 1 ==> !dmaUnsafe)
    {
      var usable := Answer();
      if !usable { return 0; }
      rc := AddressDevice();
      if rc != 0 { return -1; }
      rc := ReadDescriptors();
      if rc != 0 { return -1; }
      var isKeyboard := Answer();
      var isMouse := Answer();
      if !isKeyboard && !isMouse {
        rc := ConfigureStorage();
        return;
      }
      rc := ConfigureHid(isKeyboard);
    }

    method AddressDevice() returns (rc: int)
      requires Valid() && !dmaUnsafe && busy && devices[current].used && devices[current].slot == 0
      modifies this
      ensures Valid() && Settled() && (rc == 0 ==> !dmaUnsafe)
    {
      rc := EnableSlot();
      if rc != 0 { return -1; }
      if devices[current].slot == 0 || devices[current].slot > maxDevices { return -1; }
      rc := NewRings();
    }

    method ReadDescriptors() returns (rc: int)
      requires Valid() && !dmaUnsafe && busy
      modifies this
      ensures Valid() && Settled() && (rc == 0 ==> !dmaUnsafe)
    {
      rc := Descriptor();
      if rc != 0 { return -1; }
      var sane := Answer();
      var resize := Answer();
      if !sane { return -1; }
      if resize {
        Touching(ContextInit);
        rc := Command(); // evaluate context
        if rc != 0 { return -1; }
      }
      rc := Descriptor();
      if rc != 0 { return -1; }
      rc := Descriptor();
      if rc != 0 { return -1; }
      rc := Descriptor();
    }

    method ConfigureHid(isKeyboard: bool) returns (rc: int)
      requires Valid() && !dmaUnsafe && busy
      modifies this
      ensures Valid() && Settled() && (rc == 1 ==> !dmaUnsafe)
    {
      if (if isKeyboard then keyboard else mouse) >= 0 { return -1; }
      rc := ConfigureEndpoint();
      if rc != 0 { return -1; }
      if isKeyboard {
        keyboard, ready, keyboardArmed := current, true, 0;
      } else {
        mouse, mouseReady, mouseArmed := current, true, 0;
      }
      ArmReport(!isKeyboard); // on a ring just initialised
      return 1;
    }

    method ConfigureEndpoint() returns (rc: int)
      requires Valid() && !dmaUnsafe && busy
      modifies this
      ensures Valid() && Unmoved() && (rc == 0 ==> !dmaUnsafe)
    {
      rc := Control(false); // set configuration
      if rc != 0 { return -1; }
      rc := Control(false); // boot protocol
      if rc != 0 { return -1; }
      Touching(ContextInit);
      rc := Command(); // configure endpoint
    }

    /** Gives a device's memory back, only after the controller has let go of its slot; otherwise
        the record stays as it is and the latch is set. */
    method ReleaseDevice(dev: nat) returns (rc: int)
      requires Valid() && busy && dev < MAX_DEVICES
      modifies this
      ensures Valid() && Latched() && Settled() && rc in {0, -1}
      ensures rc == 0 ==> devices == old(devices)[dev := EMPTY] && dmaUnsafe == old(dmaUnsafe)
      ensures rc == 0 ==> held[dev] == {} && forall i | 0 <= i < MAX_DEVICES && i != dev :: held[i] == old(held)[i]
      ensures rc != 0 ==> devices == old(devices)[dev := old(devices)[dev].(failed := true)]
      ensures rc != 0 ==> dmaUnsafe && held == old(held) && disks == old(disks)
      ensures old(dmaUnsafe) ==> rc != 0
      ensures !old(dmaUnsafe) && old(devices[dev].slot) != 0 ==> old(log) + [Handed(0)] <= log
      ensures !old(dmaUnsafe) && old(devices[dev].slot) == 0 ==> rc == 0
    {
      current := dev;
      if dmaUnsafe {
        MarkFailed(dev);
        return -1;
      }
      if devices[dev].slot != 0 {
        rc := DisableSlot(dev);
        if rc != 0 {
          MarkFailed(dev);
          dmaUnsafe := true;
          return -1;
        }
        Touching(ContextInit);
      }
      ForgetDevice(dev);
      return 0;
    }

    method MarkFailed(dev: nat)
      requires Valid() && dev < MAX_DEVICES
      modifies this`devices
      ensures Valid() && devices == old(devices)[dev := old(devices)[dev].(failed := true)]
    {
      devices := devices[dev := devices[dev].(failed := true)];
    }

    method ForgetDevice(dev: nat)
      requires Valid() && !dmaUnsafe && dev < MAX_DEVICES && held[dev] == {}
      modifies this`mouse, this`mouseReady, this`disks, this`log, this`devices
      ensures Valid() && devices == old(devices)[dev := EMPTY] && old(log) <= log
    {
      if mouse == dev { mouse, mouseReady := -1, false; }
      ForgetDisks(dev);
      Recycling(dev);
    }

    method ForgetDisks(dev: nat)
      requires Valid()
      modifies this`disks
      ensures Valid() && forall d | 0 <= d < 4 :: disks[d] != dev
    {
      var d := 0;
      while d < 4
        invariant 0 <= d <= 4 && Valid()
        invariant forall k | 0 <= k < d :: disks[k] != dev
      {
        if disks[d] == dev { disks := disks[d := -1]; }
        d := d + 1;
      }
    }

    /** Releases what was unplugged, then enumerates free ports; stops as soon as the latch is set. */
    method ScanPorts()
      requires Valid() && busy
      modifies this
      ensures Valid() && Latched()
      ensures old(dmaUnsafe) ==> DevicesHeld()
      ensures Settled()
    {
      var i := 0;
      while i < maxDevices
        invariant 0 <= i <= maxDevices && Valid() && Settled()
        invariant dmaUnsafe == old(dmaUnsafe)
        invariant old(dmaUnsafe) ==> i == 0 && log == old(log) && devices == old(devices) && held == old(held)
      {
        var plugged := Answer();
        if devices[i].used && i != keyboard && (devices[i].failed || !plugged) {
          var rc := ReleaseDevice(i);
        }
        if dmaUnsafe { return; }
        i := i + 1;
      }
      var port := 1;
      while port <= ports
        invariant 1 <= port && Valid() && !dmaUnsafe && !old(dmaUnsafe) && Settled()
      {
        var available := EnumeratePort(port);
        if dmaUnsafe { return; }
        port := port + 1;
      }
    }

    method EnumeratePort(port: nat) returns (tried: bool)
      requires Valid() && !dmaUnsafe && busy
      modifies this
      ensures Valid() && Settled()
    {
      var available, owned, i := -1, false, 0;
      while i < maxDevices
        invariant 0 <= i <= maxDevices && -1 <= available < MAX_DEVICES
        invariant available >= 0 ==> !devices[available].used
      {
        if devices[i].used && devices[i].port == port { owned := true; }
        if !devices[i].used && available < 0 { available := i; }
        i := i + 1;
      }
      var plugged := Answer();
      if owned || available < 0 || !plugged { return false; }
      current := available;
      devices := devices[current := devices[current].(used := true, port := port)];
      var rc := KeyboardOnPort(port);
      if rc != 1 {
        var released := ReleaseDevice(current);
      }
      return true;
    }

    // ----- the interface -----

    /** Brings a controller up: its own rings and tables, then the first scan. */
    method Controller() returns (ok: bool)
      requires Valid() && !dmaUnsafe && busy
      modifies this
      ensures Valid() && busy && initialized == old(initialized) && old(log) <= log
    {
      var present := Answer();
      if !present { return false; }
      ClearTables();
      var slots: nat :| 1 <= slots <= MAX_DEVICES;
      maxDevices := slots;
      ports := *;
      var started := Answer();
      if !started {
        dmaUnsafe := true;
        return false;
      }
      running := true;
      ScanPorts();
      return true;
    }

    /** The controller has been reset and holds nothing. */
    method ClearTables()
      requires Valid() && !dmaUnsafe
      modifies this`held, this`log, this`devices
      ensures Valid() && devices == seq(MAX_DEVICES, _ => EMPTY) && old(log) <= log
    {
      held := NO_SLOTS;
      Touching(RingInit);
      Touching(ContextInit);
      log := log + [Touch(Recycle, dmaUnsafe, held != NO_SLOTS, 0)];
      devices := seq(MAX_DEVICES, _ => EMPTY);
    }

    /** Initialises once; afterwards only reports what is known. */
    method Init()
      requires Valid()
      modifies this
      ensures Valid() && Latched() && (old(dmaUnsafe) ==> devices == old(devices))
      ensures old(initialized) ==> busy == old(busy)
    {
      if initialized { return; }
      initialized, busy, ready := true, true, false;
      if dmaUnsafe {
        busy := false;
        return;
      }
      var candidates: nat := *;
      var found := false;
      while candidates > 0 && !found && !dmaUnsafe
        invariant Valid() && busy && !old(dmaUnsafe) && old(log) <= log
        decreases candidates
      {
        found := Controller();
        candidates := candidates - 1;
      }
      busy := false;
    }

    /** The timer's poll: bounded, and it never waits. */
    method Poll()
      requires Sound()
      modifies this
      ensures Sound() && Latched() && Unmoved() && dmaUnsafe == old(dmaUnsafe) && pending == old(pending)
      ensures old(busy) ==> log == old(log) && ready == old(ready) && mouseReady == old(mouseReady)
    {
      if !running || busy || dmaUnsafe { return; }
      var halted := Answer();
      if halted {
        ready, mouseReady := false, false;
        return;
      }
      for n := 0 to 16
        invariant Sound() && !dmaUnsafe && Unmoved() && pending == old(pending)
      {
        var arrived := Answer();
        if !arrived { break; }
        KeyboardEvent();
      }
    }

    /** The timer may fire at any point. While a call is under way, `busy` makes its poll do
        nothing, so it needs to be looked at only where `busy` is clear and where a call waits. */
    method Interrupt()
      requires Sound()
      modifies this
      ensures Sound() && Latched() && Unmoved() && dmaUnsafe == old(dmaUnsafe) && pending == old(pending)
      ensures old(busy) ==> log == old(log) && ready == old(ready) && mouseReady == old(mouseReady)
    {
      var fires := Answer();
      if fires { Poll(); }
    }

    method StorageScan() returns (count: int)
      requires Valid()
      modifies this
      ensures Valid() && Latched() && (old(dmaUnsafe) ==> DevicesHeld())
    {
      Init();
      Interrupt();
      if !running || dmaUnsafe { return -1; }
      busy := true;
      ScanPorts();
      busy := false;
      count := 0;
    }

    method MouseStart() returns (active: bool)
      requires Valid()
      modifies this
      ensures Valid() && Latched() && (old(dmaUnsafe) ==> DevicesHeld() && !active)
    {
      Init();
      Interrupt();
      if !running || busy || dmaUnsafe { return false; }
      busy := true;
      ScanPorts();
      busy := false;
      Poll();
      active := mouseReady && !dmaUnsafe;
    }

    /** One bulk transfer over the shared scratch buffer. */
    method Bulk() returns (rc: int)
      requires Valid() && !dmaUnsafe && busy
      modifies this
      ensures Valid() && Unmoved() && (rc == 0 ==> !dmaUnsafe) && rc in {0, -1}
      ensures old(log) + [Handed(0)] <= log
    {
      Enqueue();
      rc := WaitEvent();
      var short := Answer();
      if rc != 0 || short { return -1; }
    }

    /** Command, data and status stages, abandoned at the first failure. */
    method BotCommand(bytes: nat, write: bool) returns (rc: int)
      requires Valid() && !dmaUnsafe && busy
      modifies this
      ensures Valid() && Unmoved() && (rc != -1 ==> !dmaUnsafe)
      ensures |old(log)| + 1 < |log| && log[|old(log)| + 1] == Handed(0)
    {
      Touching(ScratchWrite);
      rc := Bulk();
      if rc != 0 { return -1; }
      rc := DataStage(bytes, write);
      if rc != 0 { return -1; }
      rc := Bulk();
      if rc != 0 { return -1; }
      var sound := Answer();
      var check := Answer();
      if !sound { return -1; }
      return if check then -2 else 0;
    }

    method DataStage(bytes: nat, write: bool) returns (rc: int)
      requires Valid() && !dmaUnsafe && busy
      modifies this
      ensures Valid() && Unmoved() && (rc == 0 ==> !dmaUnsafe) && rc in {0, -1}
      ensures rc == 0 && bytes > 0 ==> old(log) < log
    {
      if bytes == 0 { return 0; }
      if write { Touching(ScratchWrite); }
      rc := Bulk();
    }

    method StorageCommand(disk: nat, bytes: nat, write: bool) returns (rc: int)
      requires Valid()
      modifies this
      ensures Valid() && Latched()
      ensures rc != -1 ==> exists i :: |old(log)| <= i < |log| && log[i] == Handed(0)
      ensures old(dmaUnsafe) ==> rc == -1 && devices == old(devices)
      ensures disk < 4 && old(disks)[disk] >= 0 ==> OnlyRecordChanged(old(disks)[disk])
      ensures !(disk < 4 && old(disks)[disk] >= 0) ==> devices == old(devices) && held == old(held)
    {
      Interrupt();
      var plugged := Answer();
      if disk >= 4 || disks[disk] < 0 || devices[disks[disk]].failed || !plugged || bytes > 512
         || busy || dmaUnsafe { return -1; }
      busy := true;
      current := disks[disk];
      ghost var at := |log| + 1;
      rc := BotCommand(bytes, write);
      assert log[at] == Handed(0);
      if rc == -1 { GiveUp(); }
      busy := false;
      Interrupt();
    }

    /** After a failed transfer the device is given up, and its slot if the controller consents. */
    method GiveUp()
      requires Valid() && busy
      modifies this
      ensures Valid() && Latched() && OnlyRecordChanged(old(current))
    {
      MarkFailed(current);
      var released := DisableSlot(current);
      if released != 0 {
        dmaUnsafe := true;
      } else {
        Touching(ContextInit);
        devices := devices[current := devices[current].(slot := 0)];
      }
    }

    /** The record may be marked as failed; its slot is given up only with the controller's consent. */
    twostate predicate OnlyRecordChanged(dev: nat)
      requires |old(devices)| == |devices| == MAX_DEVICES == |old(held)| == |held| && dev < MAX_DEVICES
      reads this
    {
      && (forall i | 0 <= i < MAX_DEVICES && i != dev :: devices[i] == old(devices)[i] && held[i] == old(held)[i])
      && var (was, now) := (old(devices)[dev], devices[dev]);
         now == was || now == was.(failed := true) || (now == was.(failed := true, slot := 0) && held[dev] == {})
    }

    method StorageRelease(disk: nat) returns (rc: int)
      requires Valid()
      modifies this
      ensures Valid() && Latched() && (old(dmaUnsafe) ==> DevicesHeld())
    {
      Interrupt();
      if disk >= 4 || disks[disk] < 0 || busy { return -1; }
      busy := true;
      rc := ReleaseDevice(disks[disk]);
      busy := false;
    }

    // ----- whole runs -----

    /** Any number of calls in any order: if the latch is set at some point, then from there on
        nothing is touched and no device record is recycled or claimed. */
    method AnyCalls(calls: nat)
      requires Valid()
      modifies this
      ensures Valid() && Latched() && (old(dmaUnsafe) ==> DevicesHeld())
    {
      var n := calls;
      while n > 0
        invariant Valid() && Latched() && (old(dmaUnsafe) ==> DevicesHeld())
        decreases n
      {
        n := n - 1;
        var call: int, disk: nat, bytes: nat, write: bool := *, *, *, *;
        match call {
          case 0 => Poll();
          case 1 => var count := StorageScan();
          case 2 => var active := MouseStart();
          case 3 => var rc := StorageCommand(disk, bytes, write);
          case 4 => var rc := StorageRelease(disk);
          case _ => Init();
        }
      }
    }
  }
}
