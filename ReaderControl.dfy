/** The control part shared by the three NFC readers: the reader state, which
    firmware handles (the scanner, the poller) are live, and the protocol the
    scanner chose. Each operation of a reader changes this part as one of the
    transitions below; the readers' classes are proved against them.

    Scanning runs the firmware's protocol scanner; once it detects a tag the
    main thread's tick swaps it for a poller of the chosen protocol; the
    poller's callback ends the poll in Success (or, for the NFC/NDEF reader,
    Error); the next tick hands a success to the application and returns to
    Idle, or restarts the scanner after an error. */
module ReaderControl {
  import opened NfcTypes

  datatype Control = Control(state: State, scanner: bool, poller: bool, detected: Protocol)

  /** The invariant of a reader whose selector only picks protocols of
      `supported`: the scanner is live exactly while scanning or waiting for
      the tick after a detection, the poller exactly from Polling until the
      tick after its outcome, and a detected protocol is one the reader
      supports. So scanner and poller are never both live. */
  predicate Valid(c: Control, supported: set<Protocol>)
  {
    && (c.scanner <==> c.state == Scanning || c.state == TagDetected)
    && (c.poller <==> c.state == Polling || c.state == Success || c.state == Error)
    && (c.state != Idle && c.state != Scanning ==> c.detected in supported)
  }

  /** A freshly allocated reader. */
  const Initial: Control := Control(Idle, false, false, Invalid)

  /** `start`: acts only from Idle. Frees any stale handle, forgets the
      detected protocol, then starts the scanner and enters Scanning, or stays
      Idle when the scanner cannot be allocated. */
  function Start(c: Control, scannerAllocated: bool): (r: Control)
    ensures c.state != Idle ==> r == c
    ensures c.state == Idle ==>
              && !r.poller && r.detected == Invalid
              && (r.state == Scanning <==> scannerAllocated) && (r.scanner <==> scannerAllocated)
  {
    if c.state != Idle then c
    else if scannerAllocated then Control(Scanning, true, false, Invalid)
    else Control(Idle, false, false, Invalid)
  }

  /** `stop`: frees both handles, enters Idle and forgets the protocol. */
  function Stop(c: Control): (r: Control)
    ensures r.state == Idle && !r.scanner && !r.poller && r.detected == Invalid
  {
    Control(Idle, false, false, Invalid)
  }

  /** The scanner callback on a detection: with a protocol chosen, records
      it and enters TagDetected; with none, nothing changes. */
  function Detect(c: Control, chosen: Protocol): (r: Control)
    ensures chosen == Invalid ==> r == c
    ensures chosen != Invalid ==> r.state == TagDetected && r.detected == chosen && r.scanner == c.scanner && r.poller == c.poller
  {
    if chosen == Invalid then c else c.(state := TagDetected, detected := chosen)
  }

  /** The switch from scanner to poller: the scanner is freed first, then
      the poller is allocated for the detected protocol; Polling if that
      worked, Idle otherwise. */
  function StartPoller(c: Control, pollerAllocated: bool): (r: Control)
    ensures !r.scanner && r.detected == c.detected
    ensures (r.state == Polling <==> pollerAllocated) && (r.poller <==> pollerAllocated)
    ensures !pollerAllocated ==> r.state == Idle
  {
    if pollerAllocated then Control(Polling, false, true, c.detected)
    else Control(Idle, false, false, c.detected)
  }

  /** A poller callback that ends the poll in `outcome`. */
  function Finish(c: Control, outcome: State): (r: Control)
    ensures r.state == outcome && r.scanner == c.scanner && r.poller == c.poller && r.detected == c.detected
  {
    c.(state := outcome)
  }

  /** `tick`, the main thread's step: TagDetected starts the poller, Error
      frees the poller and restarts the scanner, Success frees the poller and
      returns to Idle before the application is called back (the only case
      that reports a read); any other state is left alone. The scanner
      restart after an error is not checked for allocation failure. */
  function Tick(c: Control, pollerAllocated: bool): (r: (Control, bool))
    ensures r.1 <==> c.state == Success
    ensures c.state !in {TagDetected, Error, Success} ==> r.0 == c
    ensures c.state == Success ==> r.0 == Control(Idle, false, false, Invalid)
    ensures c.state == Error ==> r.0 == Control(Scanning, true, false, Invalid)
  {
    match c.state
    case TagDetected => (StartPoller(c, pollerAllocated), false)
    case Error => (Control(Scanning, true, false, Invalid), false)
    case Success => (Control(Idle, false, false, Invalid), true)
    case _ => (c, false)
  }

  /** `is_scanning` of the NFC/NDEF reader: also true in Error, which the
      next tick turns back into Scanning. */
  predicate WedgeIsScanning(c: Control)
  {
    c.state == Scanning || c.state == TagDetected || c.state == Polling || c.state == Error
  }

  /** `is_scanning` of the UID-only readers, which have no Error state. */
  predicate UidIsScanning(c: Control)
  {
    c.state == Scanning || c.state == TagDetected || c.state == Polling
  }

  // ---------------------------------------------------------------------------
  // Properties

  lemma InitialValid(supported: set<Protocol>)
    ensures Valid(Initial, supported)
  {
  }

  /** Every transition keeps the invariant, given what the firmware
      guarantees about when it happens: a detection is reported by a live
      scanner and names a supported protocol (or none), and a poll ends in
      Success or Error only while Polling. */
  lemma TransitionsKeepValid(c: Control, supported: set<Protocol>, ok: bool, chosen: Protocol, outcome: State)
    requires Valid(c, supported)
    ensures Valid(Start(c, ok), supported) && Valid(Stop(c), supported)
    ensures c.scanner && (chosen == Invalid || chosen in supported) ==> Valid(Detect(c, chosen), supported)
    ensures c.state == Polling && outcome in {Polling, Success, Error} ==> Valid(Finish(c, outcome), supported)
    ensures Valid(Tick(c, ok).0, supported)
  {
  }

  /** Scanner and poller are never live together. */
  lemma NeverBothLive(c: Control, supported: set<Protocol>)
    requires Valid(c, supported)
    ensures !(c.scanner && c.poller)
  {
  }

  /** `is_scanning` is false exactly in Idle and Success for the NFC/NDEF
      reader; the UID-only readers differ only in Error, which they never
      enter. */
  lemma IsScanningStates(c: Control)
    ensures !WedgeIsScanning(c) <==> c.state == Idle || c.state == Success
    ensures c.state != Error ==> (UidIsScanning(c) <==> WedgeIsScanning(c))
  {
  }

  /** A poll that never reaches an outcome stalls: tick leaves Polling
      alone, so only `stop` ends it. */
  lemma PollingStalls(c: Control, ok: bool)
    requires c.state == Polling
    ensures Tick(c, ok) == (c, false)
  {
  }

  /** After an error the next tick is back to scanning with a fresh scanner. */
  lemma ErrorRecovers(c: Control, ok: bool)
    requires c.state == Error
    ensures var (r, read) := Tick(c, ok);
      !read && r.state == Scanning && r.scanner && !r.poller && r.detected == Invalid
  {
  }

  /** A read is reported once: the tick that reports it returns to Idle, and
      the next tick reports nothing. */
  lemma ReadReportedOnce(c: Control, ok1: bool, ok2: bool)
    requires Tick(c, ok1).1
    ensures Tick(c, ok1).0.state == Idle && !Tick(Tick(c, ok1).0, ok2).1
  {
  }

  /** `stop` is idempotent, and after it `start` always acts. */
  lemma StopThenStart(c: Control, ok: bool)
    ensures Stop(Stop(c)) == Stop(c)
    ensures Start(Stop(c), ok).state == (if ok then Scanning else Idle)
  {
  }

  /** The whole cycle of a read: start, a detection, the tick that starts
      the poller, a successful poll and the tick that reports it, back in
      Idle with both handles freed. */
  lemma {:induction false} ReadCycle(p: Protocol, supported: set<Protocol>)
    requires p in supported && p != Invalid
    ensures var c1 := Start(Initial, true);
      var c2 := Detect(c1, p);
      var c3 := Tick(c2, true).0;
      var c4 := Finish(c3, Success);
      var (c5, read) := Tick(c4, true);
      && c1.state == Scanning && c2.state == TagDetected && c3.state == Polling && c3.detected == p
      && Valid(c3, supported) && read && c5 == Initial
  {
  }
}
