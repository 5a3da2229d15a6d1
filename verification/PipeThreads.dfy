/** One writer thread, one reader thread and a thread that breaks the pipe, step by step.

    Each step is one atomic action of the code: a lock or unlock, a flag test, a sample of a
    counter, a copy, a counter update, a wait or a notify. Testing a counter and going to sleep are
    two of them, and the other thread, which updates its counter without the mutex, may come
    between. Condition waits may end spuriously. */
module PipeThreads {
  import opened Common
  import opened Ring

  /** Where the writer is inside xpipe_write. */
  datatype WriterAt =
    | WIdle | WLoop | WSample | WCopy | WCommit | WAfter
    | WLock | WCheck | WNotify | WBlock | WTest | WWait | WSleep | WUnblock | WUnlock
    | WTry | WTryOk | WLockEnd | WNotifyEnd | WUnlockEnd

  /** Where the reader is inside xpipe_read. */
  datatype ReaderAt =
    | RIdle | RLoop | RSample | RCopy | RCommit | RAfter
    | RLock | RCheck | RNotify | RBlock | RTest | RWait | RSleep | RUnblock | RUnlock | RUnlockBroken
    | RTry | RTryOk | RLockEnd | RNotifyEnd | RUnlockEnd

  /** Where the breaking thread is inside xpipe_break. */
  datatype BreakerAt = BIdle | BLock | BSet | BBroadcast | BUnlock | BDone

  datatype Owner = Nobody | Writer | Reader | Breaker

  /** Locks, flags, wait set and program counters. */
  datatype Control = Control(
    mutex: Owner, rblock: bool, wblock: bool, breaker: bool, wWaits: bool, rWaits: bool,
    w: WriterAt, r: ReaderAt, b: BreakerAt)

  /** A finished call: what was asked for, and what xpipe_write took or xpipe_read gave. */
  datatype Call = Call(asked: nat, bytes: seq<Byte>)

  /** The ring, its counters, the local variables of the calls, with `got` what the reader's buffer
      holds, and what ever went in and out, byte by byte and call by call. */
  datatype Bytes = Bytes(
    buf: seq<Byte>, writer: nat, reader: nat,
    data: seq<Byte>, wpos: nat, wn: nat,
    want: nat, rpos: nat, rn: nat, chunk: seq<Byte>, got: seq<Byte>,
    sent: seq<Byte>, received: seq<Byte>, puts: seq<Call>, takes: seq<Call>)

  datatype State = State(c: Control, d: Bytes)

  predicate Full(d: Bytes) { d.writer == d.reader + |d.buf| }
  predicate Empty(d: Bytes) { d.writer == d.reader }

  function Min(a: int, b: int): int { if a < b then a else b }

  /** Where the writer's next action inside a call leads; None when it has to wait. */
  function WriterGoes(c: Control, more: bool, room: bool, rest: bool, full: bool): Option<WriterAt> {
    match c.w
    case WIdle => None
    case WLoop => Some(if !c.breaker && more then WSample else WIdle)
    case WSample => Some(if room then WCopy else WAfter)
    case WCopy => Some(WCommit)
    case WCommit => Some(WAfter)
    case WAfter => Some(if rest then WLock else WTry)
    case WLock => if c.mutex == Nobody then Some(WCheck) else None
    case WCheck => Some(if !c.breaker then WNotify else WUnlock)
    case WNotify => Some(WBlock)
    case WBlock => if !c.wblock then Some(WTest) else None
    case WTest => Some(if full then WWait else WUnblock)
    case WWait => Some(WSleep)
    case WSleep => if !c.wWaits && c.mutex == Nobody then Some(WUnblock) else None
    case WUnblock => Some(WUnlock)
    case WUnlock => Some(WLoop)
    case WTry => Some(if !c.rblock then WTryOk else WLockEnd)
    case WTryOk => Some(WIdle)
    case WLockEnd => if c.mutex == Nobody then Some(WNotifyEnd) else None
    case WNotifyEnd => Some(WUnlockEnd)
    case WUnlockEnd => Some(WIdle)
  }

  /** What it does to locks, flags and the wait set. mutex_notify wakes the other thread if it
      waits. */
  function WriterDoes(c: Control): Control {
    match c.w
    case WLock | WLockEnd | WSleep => c.(mutex := Writer)
    case WUnlock | WUnlockEnd => c.(mutex := Nobody)
    case WNotify | WNotifyEnd => c.(rWaits := false)
    case WBlock => c.(wblock := true)
    case WUnblock => c.(wblock := false)
    case WWait => c.(mutex := Nobody, wWaits := true)
    case WTry => if !c.rblock then c.(rblock := true) else c
    case WTryOk => c.(rblock := false)
    case _ => c
  }

  function WriterMove(c: Control, more: bool, room: bool, rest: bool, full: bool): Option<Control> {
    var w := WriterGoes(c, more, room, rest, full);
    if w.Some? then Some(WriterDoes(c).(w := w.value)) else None
  }

  /** The bytes part: sample the room, copy into the ring, publish. */
  function WriterBytes(w: WriterAt, d: Bytes): Bytes
    requires |d.buf| > 0
  {
    if w.WSample? then
      var n := Min(|d.buf| - d.writer + d.reader, |d.data| - d.wpos);
      d.(wn := if n > 0 then n else 0)
    else if w.WCopy? && d.wpos + d.wn <= |d.data| then
      d.(buf := Written(d.buf, d.writer, d.data[d.wpos..d.wpos + d.wn]))
    else if w.WCommit? && d.wpos + d.wn <= |d.data| then
      d.(writer := d.writer + d.wn, wpos := d.wpos + d.wn, sent := d.sent + d.data[d.wpos..d.wpos + d.wn])
    else d
  }

  function WriterStep(s: State): Option<State>
    requires |s.d.buf| > 0
  {
    var d := s.d;
    var c := WriterMove(s.c, d.wpos < |d.data|, Min(|d.buf| - d.writer + d.reader, |d.data| - d.wpos) > 0,
                        d.wpos != |d.data|, Full(d));
    if c.Some? then Some(State(c.value, WriterBytes(s.c.w, d))) else None
  }

  function ReaderGoes(c: Control, more: bool, some: bool, rest: bool, empty: bool): Option<ReaderAt> {
    match c.r
    case RIdle => None
    case RLoop => Some(if more then RSample else RIdle)
    case RSample => Some(if some then RCopy else RAfter)
    case RCopy => Some(RCommit)
    case RCommit => Some(RAfter)
    case RAfter => Some(if rest then RLock else RTry)
    case RLock => if c.mutex == Nobody then Some(RCheck) else None
    case RCheck => Some(if !c.breaker then RNotify else RUnlockBroken)
    case RNotify => Some(RBlock)
    case RBlock => if !c.rblock then Some(RTest) else None
    case RTest => Some(if empty then RWait else RUnblock)
    case RWait => Some(RSleep)
    case RSleep => if !c.rWaits && c.mutex == Nobody then Some(RUnblock) else None
    case RUnblock => Some(RUnlock)
    case RUnlock => Some(RLoop)
    case RUnlockBroken => Some(RIdle)
    case RTry => Some(if !c.wblock then RTryOk else RLockEnd)
    case RTryOk => Some(RIdle)
    case RLockEnd => if c.mutex == Nobody then Some(RNotifyEnd) else None
    case RNotifyEnd => Some(RUnlockEnd)
    case RUnlockEnd => Some(RIdle)
  }

  function ReaderDoes(c: Control): Control {
    match c.r
    case RLock | RLockEnd | RSleep => c.(mutex := Reader)
    case RUnlock | RUnlockBroken | RUnlockEnd => c.(mutex := Nobody)
    case RNotify | RNotifyEnd => c.(wWaits := false)
    case RBlock => c.(rblock := true)
    case RUnblock => c.(rblock := false)
    case RWait => c.(mutex := Nobody, rWaits := true)
    case RTry => if !c.wblock then c.(wblock := true) else c
    case RTryOk => c.(wblock := false)
    case _ => c
  }

  function ReaderMove(c: Control, more: bool, some: bool, rest: bool, empty: bool): Option<Control> {
    var r := ReaderGoes(c, more, some, rest, empty);
    if r.Some? then Some(ReaderDoes(c).(r := r.value)) else None
  }

  /** Sample what there is, copy out of the ring, give the room back. */
  function ReaderBytes(r: ReaderAt, d: Bytes): Bytes
    requires |d.buf| > 0
  {
    if r.RSample? then
      var n := Min(d.writer - d.reader, d.want - d.rpos);
      d.(rn := if n > 0 then n else 0)
    else if r.RCopy? then d.(chunk := Window(d.buf, d.reader, d.rn))
    else if r.RCommit? then
      d.(reader := d.reader + d.rn, rpos := d.rpos + d.rn, got := d.got + d.chunk, received := d.received + d.chunk)
    else d
  }

  function ReaderStep(s: State): Option<State>
    requires |s.d.buf| > 0
  {
    var d := s.d;
    var c := ReaderMove(s.c, d.rpos < d.want, Min(d.writer - d.reader, d.want - d.rpos) > 0,
                        d.rpos != d.want, Empty(d));
    if c.Some? then Some(State(c.value, ReaderBytes(s.c.r, d))) else None
  }

  function BreakerMove(c: Control): Option<Control> {
    match c.b
    case BIdle => None
    case BLock => if c.mutex == Nobody then Some(c.(mutex := Breaker, b := BSet)) else None
    case BSet => Some(c.(breaker := true, b := BBroadcast))
    case BBroadcast => Some(c.(wWaits := false, rWaits := false, b := BUnlock))
    case BUnlock => Some(c.(mutex := Nobody, b := BDone))
    case BDone => None
  }

  /** The next call of each kind; the one before is over. */
  function NextWrite(d: Bytes, x: seq<Byte>): (e: Bytes)
    ensures e.data == x && e.wpos == 0 && |e.puts| == |d.puts| + 1
  {
    d.(data := x, wpos := 0, puts := d.puts + [Call(|d.data|, d.data[..Min(d.wpos, |d.data|)])])
  }

  function NextRead(d: Bytes, n: nat): (e: Bytes)
    ensures e.want == n && e.rpos == 0 && e.got == [] && |e.takes| == |d.takes| + 1
  {
    d.(want := n, rpos := 0, got := [], takes := d.takes + [Call(d.want, d.got)])
  }

  /** A call begins, or a wait ends by itself. */
  ghost predicate Outside(s: State, s': State) {
    || (s.c.w == WIdle && exists x :: s' == State(s.c.(w := WLoop), NextWrite(s.d, x)))
    || (s.c.r == RIdle && exists n :: s' == State(s.c.(r := RLoop), NextRead(s.d, n)))
    || (s.c.b == BIdle && s' == s.(c := s.c.(b := BLock)))
    || s' == s.(c := s.c.(wWaits := false))
    || s' == s.(c := s.c.(rWaits := false))
  }

  ghost predicate Next(s: State, s': State) {
    && |s.d.buf| > 0
    && (|| WriterStep(s) == Some(s')
        || ReaderStep(s) == Some(s')
        || (BreakerMove(s.c) == Some(s'.c) && s'.d == s.d)
        || Outside(s, s'))
  }

  predicate Start(s: State) {
    && s.c == Control(Nobody, false, false, false, false, false, WIdle, RIdle, BIdle)
    && |s.d.buf| > 0 && s.d.writer == s.d.reader == 0 && s.d.sent == [] && s.d.received == []
    && s.d.data == [] && s.d.wpos == 0 && s.d.want == 0 && s.d.rpos == 0 && s.d.got == []
    && s.d.puts == [] && s.d.takes == []
  }

  ghost predicate Run(states: seq<State>) {
    |states| > 0 && Start(states[0])
    && forall i :: 0 <= i < |states| - 1 ==> Next(states[i], states[i + 1])
  }

  // ---------------------------------------------------------------- invariant

  /** Where each thread holds the mutex. */
  predicate WHolds(w: WriterAt) {
    || w.WCheck? || w.WNotify? || w.WBlock? || w.WTest? || w.WWait? || w.WUnblock? || w.WUnlock?
    || w.WNotifyEnd? || w.WUnlockEnd?
  }
  predicate RHolds(r: ReaderAt) {
    || r.RCheck? || r.RNotify? || r.RBlock? || r.RTest? || r.RWait? || r.RUnblock? || r.RUnlock? || r.RUnlockBroken?
    || r.RNotifyEnd? || r.RUnlockEnd?
  }
  predicate BHolds(b: BreakerAt) { b.BSet? || b.BBroadcast? || b.BUnlock? }

  predicate MutexOk(c: Control) {
    && (c.mutex == Writer <==> WHolds(c.w))
    && (c.mutex == Reader <==> RHolds(c.r))
    && (c.mutex == Breaker <==> BHolds(c.b))
  }

  /** Where a thread holds its own block flag. */
  predicate WBlocks(w: WriterAt) { w.WTest? || w.WWait? || w.WSleep? || w.WUnblock? }
  predicate RBlocks(r: ReaderAt) { r.RTest? || r.RWait? || r.RSleep? || r.RUnblock? }

  /** A block flag is held by the thread that may sleep under it or by the other one trying it,
      never by both. */
  predicate BlocksOk(c: Control) {
    && (c.wblock <==> WBlocks(c.w) || c.r.RTryOk?) && !(WBlocks(c.w) && c.r.RTryOk?)
    && (c.rblock <==> RBlocks(c.r) || c.w.WTryOk?) && !(RBlocks(c.r) && c.w.WTryOk?)
  }

  /** Who sleeps: never both, nobody once the pipe is broken, and nobody while the other thread
      is between its notify and its own wait. */
  predicate WaitsOk(c: Control) {
    && (c.wWaits ==> c.w.WSleep?) && (c.rWaits ==> c.r.RSleep?) && !(c.wWaits && c.rWaits)
    && (c.w.WBlock? || c.w.WTest? || c.w.WWait? ==> !c.rWaits)
    && (c.r.RBlock? || c.r.RTest? || c.r.RWait? ==> !c.wWaits)
    && (c.breaker <==> c.b.BBroadcast? || c.b.BUnlock? || c.b.BDone?)
    && (c.b.BUnlock? || c.b.BDone? ==> !c.wWaits && !c.rWaits)
    && (c.w.WNotify? || c.w.WBlock? || c.w.WTest? || c.w.WWait? ==> !c.breaker)
    && (c.r.RNotify? || c.r.RBlock? || c.r.RTest? || c.r.RWait? ==> !c.breaker)
  }

  /** The thread is on its way to a notify. */
  predicate WriterWillNotify(w: WriterAt) {
    w.WAfter? || w.WLock? || w.WCheck? || w.WNotify? || w.WTry? || w.WLockEnd? || w.WNotifyEnd?
  }
  predicate ReaderWillNotify(r: ReaderAt) {
    r.RAfter? || r.RLock? || r.RCheck? || r.RNotify? || r.RTry? || r.RLockEnd? || r.RNotifyEnd?
  }

  /** No lost wake-up: a thread that sleeps although it could go on is about to be notified, and so
      is one that has found it could not go on, and has not gone to sleep yet. */
  predicate WakeOk(c: Control, full: bool, empty: bool) {
    && (c.rWaits && !empty ==> WriterWillNotify(c.w) || c.b.BBroadcast?)
    && (c.wWaits && !full ==> ReaderWillNotify(c.r) || c.b.BBroadcast?)
    && (c.r.RWait? && !empty ==> WriterWillNotify(c.w))
    && (c.w.WWait? && !full ==> ReaderWillNotify(c.r))
  }

  predicate ControlOk(c: Control, full: bool, empty: bool) {
    MutexOk(c) && BlocksOk(c) && WaitsOk(c) && WakeOk(c, full, empty)
  }

  /** The bytes between reader and writer are in the ring, and what was read is what was sent. */
  ghost predicate DataOk(w: WriterAt, r: ReaderAt, d: Bytes) {
    && |d.buf| > 0 && d.reader <= d.writer <= d.reader + |d.buf|
    && |d.sent| == d.writer && d.received == d.sent[..d.reader]
    && Window(d.buf, d.reader, d.writer - d.reader) == d.sent[d.reader..]
    && (w.WCopy? || w.WCommit? ==> 0 < d.wn && d.wpos + d.wn <= |d.data| && d.writer + d.wn <= d.reader + |d.buf|)
    && (w.WCommit? ==> Window(d.buf, d.writer, d.wn) == d.data[d.wpos..d.wpos + d.wn])
    && (r.RCopy? || r.RCommit? ==> 0 < d.rn && d.rpos + d.rn <= d.want && d.reader + d.rn <= d.writer)
    && (r.RCommit? ==> d.chunk == d.sent[d.reader..d.reader + d.rn])
  }

  ghost predicate Inv(s: State) {
    DataOk(s.c.w, s.c.r, s.d) && ControlOk(s.c, Full(s.d), Empty(s.d))
  }

  // ---------------------------------------------------------------- preservation

  /** What the bytes part needs to know about the control part. */
  predicate WriterPath(c: Control, c': Control, room: bool) {
    && (c.w.WCopy? ==> c'.w.WCommit?) && (c.w.WCommit? ==> c'.w.WAfter?) && (c'.w.WCommit? ==> c.w.WCopy?)
    && (c'.w.WCopy? ==> c.w.WSample? && room) && c'.r == c.r
  }

  predicate ReaderPath(c: Control, c': Control, some: bool) {
    && (c.r.RCopy? ==> c'.r.RCommit?) && (c.r.RCommit? ==> c'.r.RAfter?) && (c'.r.RCommit? ==> c.r.RCopy?)
    && (c'.r.RCopy? ==> c.r.RSample? && some) && c'.w == c.w
  }

  /** Moving bytes, and leaving the call; between them lies the way into and out of a wait. */
  predicate WriterMoving(at: WriterAt) {
    || at.WIdle? || at.WLoop? || at.WSample? || at.WCopy? || at.WCommit?
  }
  predicate WriterLeaving(at: WriterAt) {
    || at.WTry? || at.WTryOk? || at.WLockEnd? || at.WNotifyEnd? || at.WUnlockEnd?
  }

  lemma WriterMoves(c: Control, c': Control, more: bool, room: bool, rest: bool, full: bool, empty: bool, full': bool,
      empty': bool)
    requires ControlOk(c, full, empty) && WriterMove(c, more, room, rest, full) == Some(c')
    requires WriterMoving(c.w)
    requires (full ==> full') && (empty' ==> empty) && (!c.w.WCommit? ==> full' == full && empty' == empty)
    ensures ControlOk(c', full', empty') && WriterPath(c, c', room)
  {
    match c.w
    case WIdle => case WLoop => case WSample => case WCopy => case WCommit =>
    case _ =>
  }

  /** On its way out of a wait. */
  predicate WriterWaking(at: WriterAt) {
    || at.WSleep? || at.WUnblock? || at.WUnlock?
  }

  lemma WriterParks(c: Control, c': Control, more: bool, room: bool, rest: bool, full: bool, empty: bool, full': bool,
      empty': bool)
    requires ControlOk(c, full, empty) && WriterMove(c, more, room, rest, full) == Some(c')
    requires !WriterMoving(c.w) && !WriterLeaving(c.w) && !WriterWaking(c.w)
    requires full' == full && empty' == empty
    ensures ControlOk(c', full', empty') && WriterPath(c, c', room)
  {
    match c.w
    case WAfter => case WLock => case WCheck => case WNotify => case WBlock => case WTest => case WWait => case _ =>
  }

  lemma WriterWakes(c: Control, c': Control, more: bool, room: bool, rest: bool, full: bool, empty: bool, full': bool,
      empty': bool)
    requires ControlOk(c, full, empty) && WriterMove(c, more, room, rest, full) == Some(c')
    requires WriterWaking(c.w)
    requires full' == full && empty' == empty
    ensures ControlOk(c', full', empty') && WriterPath(c, c', room)
  {
    match c.w
    case WSleep => case WUnblock => case WUnlock => case _ =>
  }

  lemma WriterLeaves(c: Control, c': Control, more: bool, room: bool, rest: bool, full: bool, empty: bool,
      full': bool, empty': bool)
    requires ControlOk(c, full, empty) && WriterMove(c, more, room, rest, full) == Some(c')
    requires WriterLeaving(c.w)
    requires (full ==> full') && (empty' ==> empty) && (!c.w.WCommit? ==> full' == full && empty' == empty)
    ensures ControlOk(c', full', empty') && WriterPath(c, c', room)
  {
    match c.w
    case WTry => case WTryOk => case WLockEnd => case WNotifyEnd => case WUnlockEnd => case _ =>
  }

  /** Moving bytes, and leaving the call; between them lies the way into and out of a wait. */
  predicate ReaderMoving(at: ReaderAt) {
    || at.RIdle? || at.RLoop? || at.RSample? || at.RCopy? || at.RCommit?
  }
  predicate ReaderLeaving(at: ReaderAt) {
    || at.RTry? || at.RTryOk? || at.RLockEnd? || at.RNotifyEnd? || at.RUnlockEnd?
  }

  lemma ReaderMoves(c: Control, c': Control, more: bool, some: bool, rest: bool, full: bool, empty: bool, full': bool,
      empty': bool)
    requires ControlOk(c, full, empty) && ReaderMove(c, more, some, rest, empty) == Some(c')
    requires ReaderMoving(c.r) && !c.r.RCommit?
    requires full' == full && empty' == empty
    ensures ControlOk(c', full', empty') && ReaderPath(c, c', some)
  {
    match c.r
    case RIdle => case RLoop => case RSample => case RCopy => case _ =>
  }

  /** Only here does the reader make room. */
  lemma ReaderCommits(c: Control, c': Control, more: bool, some: bool, rest: bool, full: bool, empty: bool, full': bool,
      empty': bool)
    requires ControlOk(c, full, empty) && ReaderMove(c, more, some, rest, empty) == Some(c')
    requires c.r.RCommit? && (empty ==> empty') && (full' ==> full)
    ensures ControlOk(c', full', empty') && ReaderPath(c, c', some)
  {
  }

  /** On its way out of a wait. */
  predicate ReaderWaking(at: ReaderAt) {
    || at.RSleep? || at.RUnblock? || at.RUnlock? || at.RUnlockBroken?
  }

  lemma ReaderParks(c: Control, c': Control, more: bool, some: bool, rest: bool, full: bool, empty: bool, full': bool,
      empty': bool)
    requires ControlOk(c, full, empty) && ReaderMove(c, more, some, rest, empty) == Some(c')
    requires !ReaderMoving(c.r) && !ReaderLeaving(c.r) && !ReaderWaking(c.r)
    requires full' == full && empty' == empty
    ensures ControlOk(c', full', empty') && ReaderPath(c, c', some)
  {
    match c.r
    case RAfter => case RLock => case RCheck => case RNotify => case RBlock => case RTest => case RWait => case _ =>
  }

  lemma ReaderWakes(c: Control, c': Control, more: bool, some: bool, rest: bool, full: bool, empty: bool, full': bool,
      empty': bool)
    requires ControlOk(c, full, empty) && ReaderMove(c, more, some, rest, empty) == Some(c')
    requires ReaderWaking(c.r)
    requires full' == full && empty' == empty
    ensures ControlOk(c', full', empty') && ReaderPath(c, c', some)
  {
    match c.r
    case RSleep => case RUnblock => case RUnlock => case RUnlockBroken => case _ =>
  }

  lemma ReaderLeaves(c: Control, c': Control, more: bool, some: bool, rest: bool, full: bool, empty: bool,
      full': bool, empty': bool)
    requires ControlOk(c, full, empty) && ReaderMove(c, more, some, rest, empty) == Some(c')
    requires ReaderLeaving(c.r)
    requires (empty ==> empty') && (full' ==> full) && (!c.r.RCommit? ==> full' == full && empty' == empty)
    ensures ControlOk(c', full', empty') && ReaderPath(c, c', some)
  {
    match c.r
    case RTry => case RTryOk => case RLockEnd => case RNotifyEnd => case RUnlockEnd => case _ =>
  }

  lemma BreakerControl(c: Control, c': Control, full: bool, empty: bool)
    requires ControlOk(c, full, empty) && BreakerMove(c) == Some(c')
    ensures ControlOk(c', full, empty)
  {
    match c.b
    case BLock =>
    case BSet =>
    case BBroadcast =>
    case BUnlock =>
    case _ =>
  }

  lemma CopyKeepsData(d: Bytes, r: ReaderAt)
    requires DataOk(WCopy, r, d)
    ensures DataOk(WCommit, r, WriterBytes(WCopy, d))
  {
    hide Window, Written;
    var x := d.data[d.wpos..d.wpos + d.wn];
    var b := Written(d.buf, d.writer, x);
    WindowWritten(d.buf, d.reader, d.writer, x);
    WindowSplit(b, d.reader, d.writer - d.reader + |x|, d.writer - d.reader);
    var win := Window(d.buf, d.reader, d.writer - d.reader);
    assert (win + x)[..|win|] == win && (win + x)[|win|..] == x;
  }

  /** Bytes at the end do not change those in front. */
  lemma Appended(s: seq<Byte>, x: seq<Byte>, lo: nat, n: nat)
    requires lo + n <= |s|
    ensures (s + x)[..lo] == s[..lo] && (s + x)[lo..] == s[lo..] + x && (s + x)[lo..lo + n] == s[lo..lo + n]
  {
  }

  lemma WindowGrows(buf: seq<Byte>, reader: nat, writer: nat, sent: seq<Byte>, x: seq<Byte>)
    requires |buf| > 0 && reader <= writer == |sent|
    requires Window(buf, reader, writer - reader) == sent[reader..] && Window(buf, writer, |x|) == x
    ensures Window(buf, reader, writer + |x| - reader) == (sent + x)[reader..]
  {
    var n := writer - reader;
    WindowSplit(buf, reader, n + |x|, n);
    hide Window;
    var win := Window(buf, reader, n + |x|);
    assert win == win[..n] + win[n..];
    Appended(sent, x, reader, 0);
  }

  lemma CommitKeepsData(d: Bytes, r: ReaderAt)
    requires DataOk(WCommit, r, d)
    ensures DataOk(WAfter, r, WriterBytes(WCommit, d))
  {
    hide Window, Written;
    var x := d.data[d.wpos..d.wpos + d.wn];
    Appended(d.sent, x, d.reader, if r.RCopy? || r.RCommit? then d.rn else 0);
    WindowGrows(d.buf, d.reader, d.writer, d.sent, x);
  }

  lemma TakeKeepsData(d: Bytes, w: WriterAt)
    requires DataOk(w, RCommit, d)
    ensures DataOk(w, RAfter, ReaderBytes(RCommit, d))
  {
    hide Window;
    WindowSplit(d.buf, d.reader, d.writer - d.reader, d.rn);
    assert d.sent[d.reader..][d.rn..] == d.sent[d.reader + d.rn..];
    assert d.sent[..d.reader] + d.sent[d.reader..d.reader + d.rn] == d.sent[..d.reader + d.rn];
  }

  lemma ReadKeepsData(d: Bytes, w: WriterAt)
    requires DataOk(w, RCopy, d)
    ensures DataOk(w, RCommit, ReaderBytes(RCopy, d))
  {
    hide Window;
    WindowSplit(d.buf, d.reader, d.writer - d.reader, d.rn);
    assert d.sent[d.reader..][..d.rn] == d.sent[d.reader..d.reader + d.rn];
  }

  lemma WriterBytesKeep(w: WriterAt, w': WriterAt, r: ReaderAt, d: Bytes)
    requires DataOk(w, r, d)
    requires w.WCopy? ==> w'.WCommit?
    requires w.WCommit? ==> w'.WAfter?
    requires w'.WCommit? ==> w.WCopy?
    requires w'.WCopy? ==> w.WSample? && Min(|d.buf| - d.writer + d.reader, |d.data| - d.wpos) > 0
    ensures var d' := WriterBytes(w, d);
            DataOk(w', r, d')
  {
    hide Window, Written;
    if w.WCopy? { CopyKeepsData(d, r); }
    if w.WCommit? { CommitKeepsData(d, r); }
  }

  lemma ReaderBytesKeep(w: WriterAt, r: ReaderAt, r': ReaderAt, d: Bytes)
    requires DataOk(w, r, d)
    requires r.RCopy? ==> r'.RCommit?
    requires r.RCommit? ==> r'.RAfter?
    requires r'.RCommit? ==> r.RCopy?
    requires r'.RCopy? ==> r.RSample? && Min(d.writer - d.reader, d.want - d.rpos) > 0
    ensures var d' := ReaderBytes(r, d);
            DataOk(w, r', d')
  {
    hide Window, Written;
    if r.RCopy? { ReadKeepsData(d, w); }
    if r.RCommit? { TakeKeepsData(d, w); }
  }

  lemma WriterNotCommitting(w: WriterAt)
    requires !WriterMoving(w)
    ensures !w.WCommit?
  {
  }

  lemma WriterKeepsInv(s: State, s': State)
    requires Inv(s) && WriterStep(s) == Some(s')
    ensures Inv(s')
  {
    hide DataOk, ControlOk, WriterBytes, WriterMove, WriterMoving, WriterLeaving;
    var d := s.d;
    var more, room, rest := d.wpos < |d.data|, Min(|d.buf| - d.writer + d.reader, |d.data| - d.wpos) > 0,
                            d.wpos != |d.data|;
    WriterChanges(s.c.w, s.c.r, d);
    if WriterMoving(s.c.w) {
      WriterMoves(s.c, s'.c, more, room, rest, Full(d), Empty(d), Full(s'.d), Empty(s'.d));
    } else if WriterLeaving(s.c.w) {
      WriterLeaves(s.c, s'.c, more, room, rest, Full(d), Empty(d), Full(s'.d), Empty(s'.d));
    } else if WriterWaking(s.c.w) {
      WriterWakes(s.c, s'.c, more, room, rest, Full(d), Empty(d), Full(s'.d), Empty(s'.d));
    } else {
      assert !s.c.w.WCommit? by { WriterNotCommitting(s.c.w); }
      WriterParks(s.c, s'.c, more, room, rest, Full(d), Empty(d), Full(s'.d), Empty(s'.d));
    }
    WriterBytesKeep(s.c.w, s'.c.w, s.c.r, d);
  }

  /** Only a commit changes whether the pipe is full or empty, and in one direction only. */
  lemma WriterChanges(w: WriterAt, r: ReaderAt, d: Bytes)
    requires DataOk(w, r, d)
    ensures var d' := WriterBytes(w, d);
            && (Full(d) ==> Full(d')) && (Empty(d') ==> Empty(d))
            && (!w.WCommit? ==> Full(d') == Full(d) && Empty(d') == Empty(d))
  {
    hide Window, Written;
  }

  lemma ReaderChanges(w: WriterAt, r: ReaderAt, d: Bytes)
    requires DataOk(w, r, d)
    ensures var d' := ReaderBytes(r, d);
            && (Empty(d) ==> Empty(d')) && (Full(d') ==> Full(d))
            && (!r.RCommit? ==> Full(d') == Full(d) && Empty(d') == Empty(d))
  {
    hide Window, Written;
  }

  lemma NotCommitting(r: ReaderAt)
    requires !ReaderMoving(r)
    ensures !r.RCommit?
  {
  }

  lemma ReaderKeepsInv(s: State, s': State)
    requires Inv(s) && ReaderStep(s) == Some(s')
    ensures Inv(s')
  {
    hide DataOk, ControlOk, ReaderBytes, ReaderMove, ReaderMoving, ReaderLeaving;
    var d := s.d;
    var more, some, rest := d.rpos < d.want, Min(d.writer - d.reader, d.want - d.rpos) > 0, d.rpos != d.want;
    ReaderChanges(s.c.w, s.c.r, d);
    if s.c.r.RCommit? {
      ReaderCommits(s.c, s'.c, more, some, rest, Full(d), Empty(d), Full(s'.d), Empty(s'.d));
    } else if ReaderMoving(s.c.r) {
      ReaderMoves(s.c, s'.c, more, some, rest, Full(d), Empty(d), Full(s'.d), Empty(s'.d));
    } else if ReaderLeaving(s.c.r) {
      ReaderLeaves(s.c, s'.c, more, some, rest, Full(d), Empty(d), Full(s'.d), Empty(s'.d));
    } else if ReaderWaking(s.c.r) {
      ReaderWakes(s.c, s'.c, more, some, rest, Full(d), Empty(d), Full(s'.d), Empty(s'.d));
    } else {
      assert !s.c.r.RCommit? by { NotCommitting(s.c.r); }
      ReaderParks(s.c, s'.c, more, some, rest, Full(d), Empty(d), Full(s'.d), Empty(s'.d));
    }
    ReaderBytesKeep(s.c.w, s.c.r, s'.c.r, d);
  }

  lemma NextKeepsInv(s: State, s': State)
    requires Inv(s) && Next(s, s')
    ensures Inv(s')
  {
    hide DataOk, ControlOk, WriterStep, ReaderStep, BreakerMove, Outside;
    if WriterStep(s) == Some(s') {
      WriterKeepsInv(s, s');
    } else if ReaderStep(s) == Some(s') {
      ReaderKeepsInv(s, s');
    } else if Outside(s, s') {
      OutsideKeepsInv(s, s');
    } else {
      BreakerKeepsInv(s, s');
    }
  }

  lemma OutsideKeepsInv(s: State, s': State)
    requires Inv(s) && Outside(s, s')
    ensures Inv(s')
  {
    hide DataOk, ControlOk, NextWrite, NextRead, Full, Empty;
    var full, empty := Full(s.d), Empty(s.d);
    if s.c.w == WIdle && s'.c == s.c.(w := WLoop) {
      var x :| s' == State(s.c.(w := WLoop), NextWrite(s.d, x));
      BeginWrite(s.c.r, s.d, x);
      BeginControl(s.c, s'.c, full, empty);
    } else if s.c.r == RIdle && s'.c == s.c.(r := RLoop) {
      var n: nat :| s' == State(s.c.(r := RLoop), NextRead(s.d, n));
      BeginRead(s.c.w, s.d, n);
      BeginControl(s.c, s'.c, full, empty);
    } else if s.c.b == BIdle && s' == s.(c := s.c.(b := BLock)) {
      BeginControl(s.c, s'.c, full, empty);
    } else {
      WokenControl(s.c, s'.c, full, empty);
    }
  }

  lemma BeginWrite(r: ReaderAt, d: Bytes, x: seq<Byte>)
    requires DataOk(WIdle, r, d)
    ensures var d' := NextWrite(d, x); DataOk(WLoop, r, d') && Full(d') == Full(d) && Empty(d') == Empty(d)
  {
    hide Window;
  }

  lemma BeginRead(w: WriterAt, d: Bytes, n: nat)
    requires DataOk(w, RIdle, d)
    ensures var d' := NextRead(d, n); DataOk(w, RLoop, d') && Full(d') == Full(d) && Empty(d') == Empty(d)
  {
    hide Window;
  }

  lemma WokenControl(c: Control, c': Control, full: bool, empty: bool)
    requires ControlOk(c, full, empty) && (c' == c.(wWaits := false) || c' == c.(rWaits := false))
    ensures ControlOk(c', full, empty)
  {
  }

  lemma BeginControl(c: Control, c': Control, full: bool, empty: bool)
    requires ControlOk(c, full, empty)
    requires || (c.w == WIdle && c' == c.(w := WLoop)) || (c.r == RIdle && c' == c.(r := RLoop))
             || (c.b == BIdle && c' == c.(b := BLock))
    ensures ControlOk(c', full, empty)
  {
  }

  lemma BreakerKeepsInv(s: State, s': State)
    requires Inv(s) && BreakerMove(s.c) == Some(s'.c) && s'.d == s.d
    ensures Inv(s')
  {
    hide DataOk;
    BreakerControl(s.c, s'.c, Full(s.d), Empty(s.d));
  }

  lemma {:induction false} RunKeepsInv(states: seq<State>, i: nat)
    requires Run(states) && i < |states|
    ensures Inv(states[i])
    decreases i
  {
    hide Next;
    if i == 0 {
      assert Window(states[0].d.buf, 0, 0) == [];
    } else {
      hide Inv;
      RunKeepsInv(states, i - 1);
      NextKeepsInv(states[i - 1], states[i]);
    }
  }

  // ---------------------------------------------------------------- what users get

  /** Bytes come out in the order they went in, none lost, none made up; nobody sleeps who
      could go on, unless he is about to be notified; writer and reader never both sleep; once
      the pipe is broken and the broadcast is out, nobody sleeps. */
  lemma EveryRunIsSafe(states: seq<State>, i: nat)
    requires Run(states) && i < |states|
    ensures var c, d := states[i].c, states[i].d;
            && d.received <= d.sent && |d.sent| <= |d.received| + |d.buf|
            && (c.rWaits && !Empty(d) ==> WriterWillNotify(c.w) || c.b.BBroadcast?)
            && (c.wWaits && !Full(d) ==> ReaderWillNotify(c.r) || c.b.BBroadcast?)
            && (c.r.RWait? && !Empty(d) ==> WriterWillNotify(c.w))
            && (c.w.WWait? && !Full(d) ==> ReaderWillNotify(c.r))
            && !(c.wWaits && c.rWaits)
            && (c.b.BUnlock? || c.b.BDone? ==> !c.wWaits && !c.rWaits)
  {
    RunKeepsInv(states, i);
  }

  /** A thread can act on its own. */
  predicate SomeoneMoves(s: State)
    requires |s.d.buf| > 0
  {
    WriterStep(s).Some? || ReaderStep(s).Some? || BreakerMove(s.c).Some?
  }

  /** No deadlock: when no thread inside a call can move, the writer is out of the pipe or
      sleeps on a full one, the reader is out or sleeps on an empty one, and one of them is
      out. */
  lemma StuckMeansDone(states: seq<State>, i: nat)
    requires Run(states) && i < |states| && |states[i].d.buf| > 0 && !SomeoneMoves(states[i])
    ensures var c, d := states[i].c, states[i].d;
            && (c.w.WIdle? || (c.w.WSleep? && c.wWaits && Full(d)))
            && (c.r.RIdle? || (c.r.RSleep? && c.rWaits && Empty(d)))
            && (c.w.WIdle? || c.r.RIdle?)
  {
    RunKeepsInv(states, i);
  }

  // ---------------------------------------------------------------- calls

  /** All bytes of finished calls. */
  function Joined(calls: seq<Call>): seq<Byte> {
    if calls == [] then [] else Joined(calls[..|calls| - 1]) + calls[|calls| - 1].bytes
  }

  lemma JoinedMore(calls: seq<Call>, c: Call)
    ensures Joined(calls + [c]) == Joined(calls) + c.bytes
  {
    assert (calls + [c])[..|calls|] == calls;
  }

  /** The call moved every byte it was asked to. */
  predicate Whole(c: Call) { |c.bytes| == c.asked }

  predicate AllWhole(calls: seq<Call>) { forall i :: 0 <= i < |calls| ==> Whole(calls[i]) }

  /** The writer leaves a call only with everything written, or on a broken pipe. */
  predicate WriteOk(c: Control, d: Bytes) {
    && d.wpos <= |d.data| && d.sent == Joined(d.puts) + d.data[..d.wpos]
    && (c.w.WIdle? && !c.breaker ==> d.wpos == |d.data|)
    && (WriterLeaving(c.w) ==> d.wpos == |d.data|)
    && (!c.breaker ==> AllWhole(d.puts))
  }

  /** And the reader only with everything read, or on a broken pipe. */
  predicate ReadOk(c: Control, d: Bytes) {
    && |d.got| == d.rpos <= d.want && d.received == Joined(d.takes) + d.got
    && (c.r.RIdle? && !c.breaker ==> d.rpos == d.want)
    && (c.r.RUnlockBroken? ==> c.breaker)
    && (ReaderLeaving(c.r) ==> d.rpos == d.want)
    && (!c.breaker ==> AllWhole(d.takes))
  }

  lemma OthersStay(c: Control)
    ensures WriterDoes(c).r == c.r && WriterDoes(c).breaker == c.breaker
    ensures ReaderDoes(c).w == c.w && ReaderDoes(c).breaker == c.breaker
  {
  }

  /** The ways to the return of a call. */
  lemma WriterWay(c: Control, w': WriterAt, more: bool, room: bool, rest: bool, full: bool)
    requires WriterGoes(c, more, room, rest, full) == Some(w')
    ensures w'.WIdle? ==> WriterLeaving(c.w) || (c.w.WLoop? && (c.breaker || !more))
    ensures WriterLeaving(w') ==> WriterLeaving(c.w) || (c.w.WAfter? && !rest)
  {
    match c.w
    case WIdle => case WLoop => case WSample => case WCopy => case WCommit => case WAfter => case WLock =>
    case WCheck => case WNotify => case WBlock => case WTest => case WWait => case WSleep => case WUnblock =>
    case WUnlock => case WTry => case WTryOk => case WLockEnd => case WNotifyEnd => case WUnlockEnd =>
  }

  lemma WriterKeepsCalls(s: State, s': State)
    requires Inv(s) && WriterStep(s) == Some(s') && WriteOk(s.c, s.d) && ReadOk(s.c, s.d)
    ensures WriteOk(s'.c, s'.d) && ReadOk(s'.c, s'.d)
  {
    hide Window, Written, ControlOk, Joined, AllWhole, WriterGoes, WriterDoes, WriterLeaving;
    var d := s.d;
    OthersStay(s.c);
    WriterWay(s.c, s'.c.w, d.wpos < |d.data|, Min(|d.buf| - d.writer + d.reader, |d.data| - d.wpos) > 0,
        d.wpos != |d.data|, Full(d));
    NotLeaving();
    if s.c.w.WCommit? {
      assert d.data[..d.wpos] + d.data[d.wpos..d.wpos + d.wn] == d.data[..d.wpos + d.wn];
    }
  }

  lemma NotLeaving()
    ensures !WriterLeaving(WCommit) && !ReaderLeaving(RCommit)
  {
  }

  lemma ReaderWay(c: Control, r': ReaderAt, more: bool, some: bool, rest: bool, empty: bool)
    requires ReaderGoes(c, more, some, rest, empty) == Some(r')
    ensures r'.RIdle? ==> ReaderLeaving(c.r) || c.r.RUnlockBroken? || (c.r.RLoop? && !more)
    ensures r'.RUnlockBroken? ==> c.breaker
    ensures ReaderLeaving(r') ==> ReaderLeaving(c.r) || (c.r.RAfter? && !rest)
  {
    match c.r
    case RIdle => case RLoop => case RSample => case RCopy => case RCommit => case RAfter => case RLock =>
    case RCheck => case RNotify => case RBlock => case RTest => case RWait => case RSleep => case RUnblock =>
    case RUnlock => case RUnlockBroken => case RTry => case RTryOk => case RLockEnd => case RNotifyEnd =>
    case RUnlockEnd =>
  }

  lemma ReaderKeepsCalls(s: State, s': State)
    requires Inv(s) && ReaderStep(s) == Some(s') && WriteOk(s.c, s.d) && ReadOk(s.c, s.d)
    ensures WriteOk(s'.c, s'.d) && ReadOk(s'.c, s'.d)
  {
    hide Window, Written, ControlOk, Joined, AllWhole, ReaderGoes, ReaderDoes, ReaderLeaving;
    var d := s.d;
    OthersStay(s.c);
    ReaderWay(s.c, s'.c.r, d.rpos < d.want, Min(d.writer - d.reader, d.want - d.rpos) > 0, d.rpos != d.want, Empty(d));
    NotLeaving();
  }

  lemma OutsideKeepsCalls(s: State, s': State)
    requires Outside(s, s') && WriteOk(s.c, s.d) && ReadOk(s.c, s.d)
    ensures WriteOk(s'.c, s'.d) && ReadOk(s'.c, s'.d)
  {
    hide Joined;
    JoinedMore(s.d.puts, Call(|s.d.data|, s.d.data[..s.d.wpos]));
    JoinedMore(s.d.takes, Call(s.d.want, s.d.got));
  }

  lemma BreakerKeepsCalls(s: State, s': State)
    requires BreakerMove(s.c) == Some(s'.c) && s'.d == s.d && WriteOk(s.c, s.d) && ReadOk(s.c, s.d)
    ensures WriteOk(s'.c, s'.d) && ReadOk(s'.c, s'.d)
  {
    hide Joined, AllWhole;
  }

  lemma {:induction false} RunKeepsCalls(states: seq<State>, i: nat)
    requires Run(states) && i < |states|
    ensures WriteOk(states[i].c, states[i].d) && ReadOk(states[i].c, states[i].d)
    decreases i
  {
    hide Inv, WriterStep, ReaderStep, BreakerMove, Outside;
    if i > 0 {
      RunKeepsCalls(states, i - 1);
      RunKeepsInv(states, i - 1);
      var s, s' := states[i - 1], states[i];
      assert Next(s, s');
      hide WriteOk, ReadOk;
      if WriterStep(s) == Some(s') {
        WriterKeepsCalls(s, s');
      } else if ReaderStep(s) == Some(s') {
        ReaderKeepsCalls(s, s');
      } else if Outside(s, s') {
        OutsideKeepsCalls(s, s');
      } else {
        BreakerKeepsCalls(s, s');
      }
    }
  }

  /** In every run, unless the pipe is broken, a call returns only when it has moved every byte it
      was asked to; what was sent is the data of the finished calls in a row and the written part of
      the one going on, and what was received is what the finished calls gave and the one going on
      has so far. */
  lemma EveryCallIsWhole(states: seq<State>, i: nat)
    requires Run(states) && i < |states|
    ensures var c, d := states[i].c, states[i].d;
      && (c.w.WIdle? && !c.breaker ==> d.wpos == |d.data|)
      && (c.r.RIdle? && !c.breaker ==> d.rpos == d.want)
      && (!c.breaker ==> AllWhole(d.puts) && AllWhole(d.takes))
      && d.wpos <= |d.data| && d.sent == Joined(d.puts) + d.data[..d.wpos]
      && |d.got| == d.rpos <= d.want && d.received == Joined(d.takes) + d.got
      && Joined(d.takes) + d.got <= Joined(d.puts) + d.data[..d.wpos]
  {
    RunKeepsCalls(states, i);
    EveryRunIsSafe(states, i);
  }

  // ---------------------------------------------------------------- progress of a call

  /** Every round of a call in which bytes can move moves as many as it can, and at least one; and a
      thread that waits does nothing until it is woken. */
  lemma EveryRoundMoves(states: seq<State>, i: nat, s': State)
    requires Run(states) && i < |states| && |states[i].d.buf| > 0
    ensures var s, d := states[i], states[i].d; WriterStep(s) == Some(s') ==>
      && (s.c.w.WSample? && s'.c.w.WCopy? ==>
            s'.d.wn == |d.data| - d.wpos > 0 || d.writer + s'.d.wn == d.reader + |d.buf|)
      && (s.c.w.WSample? && !s'.c.w.WCopy? ==> d.wpos == |d.data| || Full(d))
      && (s.c.w.WCommit? ==> s'.d.wpos == d.wpos + d.wn > d.wpos && s'.d.writer == d.writer + d.wn)
      && (s.c.w.WWait? ==> WriterStep(s').None?)
    ensures var s, d := states[i], states[i].d; ReaderStep(s) == Some(s') ==>
      && (s.c.r.RSample? && s'.c.r.RCopy? ==> s'.d.rn == d.want - d.rpos > 0 || d.reader + s'.d.rn == d.writer)
      && (s.c.r.RSample? && !s'.c.r.RCopy? ==> d.rpos == d.want || Empty(d))
      && (s.c.r.RCommit? ==> s'.d.rpos == d.rpos + d.rn > d.rpos && s'.d.reader == d.reader + d.rn)
      && (s.c.r.RWait? ==> ReaderStep(s').None?)
  {
    hide Window, Written, Joined, ControlOk, Next;
    RunKeepsInv(states, i);
    RunKeepsCalls(states, i);
  }

  // ---------------------------------------------------------------- the way out

  /** How many actions of its own a thread is at most away from leaving a broken pipe. */
  function WriterDistance(at: WriterAt): nat {
    match at
    case WIdle => 0
    case WUnlockEnd => 1 case WTryOk => 1
    case WNotifyEnd => 2 case WLockEnd => 3 case WTry => 4
    case WLoop => 1 case WUnlock => 2 case WUnblock => 3 case WSleep => 4
    case WCheck => 3 case WLock => 4
    case WAfter => 5 case WCommit => 6 case WCopy => 7 case WSample => 8
    case WNotify => 9 case WBlock => 8 case WTest => 7 case WWait => 6
  }

  function ReaderDistance(at: ReaderAt): nat {
    match at
    case RIdle => 0
    case RUnlockEnd => 1 case RTryOk => 1 case RUnlockBroken => 1
    case RNotifyEnd => 2 case RLockEnd => 3 case RTry => 4
    case RCheck => 2 case RLock => 3
    case RAfter => 5 case RCommit => 6 case RCopy => 7 case RSample => 8 case RLoop => 9
    case RUnlock => 10 case RUnblock => 11 case RSleep => 12
    case RWait => 13 case RTest => 14 case RBlock => 15 case RNotify => 16
  }

  lemma WriterNearer(c: Control, c': Control, more: bool, room: bool, rest: bool, full: bool)
    requires WriterMove(c, more, room, rest, full) == Some(c') && c.breaker
    requires !c.w.WNotify? && !c.w.WBlock? && !c.w.WTest? && !c.w.WWait?
    ensures c'.breaker && WriterDistance(c'.w) < WriterDistance(c.w) <= 8
  {
    match c.w
    case WIdle => case WLoop => case WSample => case WCopy => case WCommit => case WAfter => case WLock =>
    case WCheck => case WNotify => case WBlock => case WTest => case WWait => case WSleep => case WUnblock =>
    case WUnlock => case WTry => case WTryOk => case WLockEnd => case WNotifyEnd => case WUnlockEnd =>
  }

  lemma ReaderNearer(c: Control, c': Control, more: bool, some: bool, rest: bool, empty: bool)
    requires ReaderMove(c, more, some, rest, empty) == Some(c') && c.breaker
    requires !c.r.RNotify? && !c.r.RBlock? && !c.r.RTest? && !c.r.RWait?
    ensures c'.breaker && ReaderDistance(c'.r) < ReaderDistance(c.r) <= 12
  {
    match c.r
    case RIdle => case RLoop => case RSample => case RCopy => case RCommit => case RAfter => case RLock =>
    case RCheck => case RNotify => case RBlock => case RTest => case RWait => case RSleep => case RUnblock =>
    case RUnlock => case RUnlockBroken => case RTry => case RTryOk => case RLockEnd => case RNotifyEnd =>
    case RUnlockEnd =>
  }

  /** A broken pipe lets everyone out: every action of a thread brings it nearer to its return, so
      after at most twelve of them it has left. */
  lemma BrokenLetsOut(states: seq<State>, i: nat, s': State)
    requires Run(states) && i < |states| && |states[i].d.buf| > 0 && states[i].c.breaker
    ensures WriterStep(states[i]) == Some(s') ==>
      s'.c.breaker && WriterDistance(s'.c.w) < WriterDistance(states[i].c.w) <= 8
    ensures ReaderStep(states[i]) == Some(s') ==>
      s'.c.breaker && ReaderDistance(s'.c.r) < ReaderDistance(states[i].c.r) <= 12
  {
    hide DataOk, WriterBytes, ReaderBytes, WriterMove, ReaderMove, MutexOk, BlocksOk, WakeOk, WriterDistance,
        ReaderDistance, Next;
    RunKeepsInv(states, i);
    var c, d := states[i].c, states[i].d;
    if WriterStep(states[i]) == Some(s') {
      WriterNearer(c, s'.c, d.wpos < |d.data|, Min(|d.buf| - d.writer + d.reader, |d.data| - d.wpos) > 0,
          d.wpos != |d.data|, Full(d));
    }
    if ReaderStep(states[i]) == Some(s') {
      ReaderNearer(c, s'.c, d.rpos < d.want, Min(d.writer - d.reader, d.want - d.rpos) > 0, d.rpos != d.want,
          Empty(d));
    }
  }
}
