/** The PC-speaker style sound player: a periodic interrupt walks a table of
    inverse-frequency bytes and retunes a timer to each tone in turn. */
module Sound {
  import opened Bits
  import opened Arith

  /** The CPU clock, 16 MHz. */
  const F_CPU := 16_000_000

  /** The timer prescalers `setFrequency` chooses from, in order of preference;
      the prescaler bits are the position in this list plus one. */
  const PRESCALERS: seq<int> := [1, 8, 64, 256, 1024]

  /** The timer 1 set-up `setFrequency` writes. */
  datatype TimerConfig = TimerConfig(prescalerVal: u16, prescalerBits: u8, top: u16)

  /** `requiredDivisor`: half the clock over the frequency, in `uint32_t`. */
  function RequiredDivisor(freq: u16): (d: int)
    requires freq >= 1
    ensures 122 <= d <= F_CPU / 2
  {
    DivLowerBound(F_CPU / 2, freq, 122);
    (F_CPU / 2) / freq
  }

  /** The first prescaler whose 16-bit range holds the divisor, or the last one. */
  function PrescalerTier(d: int): (k: nat)
    ensures k < |PRESCALERS|
    ensures k < |PRESCALERS| - 1 ==> d < PRESCALERS[k] * 0x1_0000
    ensures forall j | 0 <= j < k :: d >= PRESCALERS[j] * 0x1_0000
  {
    if d < 0x1_0000 then 0
    else if d < 8 * 0x1_0000 then 1
    else if d < 64 * 0x1_0000 then 2
    else if d < 256 * 0x1_0000 then 3
    else 4
  }

  /** `setFrequency(freq)`: the prescaler and the compare value `top`, the
      divisor over the prescaler rounded to nearest, minus one, stored in an
      `uint16_t`. */
  function SetFrequency(freq: u16): (c: TimerConfig)
    requires freq >= 1
    ensures 1 <= c.prescalerBits <= 4 && c.prescalerVal == PRESCALERS[c.prescalerBits - 1]
    ensures c.top + 1 == (RequiredDivisor(freq) + c.prescalerVal / 2) / c.prescalerVal
  {
    var d := RequiredDivisor(freq);
    var k := PrescalerTier(d);
    var p := PRESCALERS[k];
    TierBounds(d);
    RoundedDivision(d, p);
    TimerConfig(p, k + 1, Wrap16((d + p / 2) / p - 1))
  }

  /** For any frequency from 1 Hz on, the prescaler is the first of 1, 8, 64
      and 256 whose 16-bit range holds the divisor; 1024 is never needed. */
  lemma PrescalerChoice(freq: u16)
    requires freq >= 1
    ensures var c, d := SetFrequency(freq), RequiredDivisor(freq);
      && 1 <= c.prescalerBits <= 4
      && c.prescalerVal == PRESCALERS[c.prescalerBits - 1]
      && d < c.prescalerVal * 0x1_0000
      && (forall j | 0 <= j < c.prescalerBits - 1 :: d >= PRESCALERS[j] * 0x1_0000)
  {
    var d := RequiredDivisor(freq);
    assert PrescalerTier(d) < 4;
  }

  /** The compare value neither underflows nor overflows its `uint16_t`:
      `top + 1` is the divisor over the prescaler, rounded to nearest. */
  lemma CompareValue(freq: u16)
    requires freq >= 1
    ensures var c, d := SetFrequency(freq), RequiredDivisor(freq);
      && c.top == (d + c.prescalerVal / 2) / c.prescalerVal - 1
      && -(c.prescalerVal / 2) <= d - (c.top + 1) * c.prescalerVal < c.prescalerVal - c.prescalerVal / 2
  {
    var d := RequiredDivisor(freq);
    var p := PRESCALERS[PrescalerTier(d)];
    TierBounds(d);
    var q := (d + p / 2) / p;
    RoundedDivision(d, p);
    assert SetFrequency(freq) == TimerConfig(p, PrescalerTier(d) + 1, q - 1);
  }

  /** A divisor of `setFrequency` lies in the 16-bit range of its prescaler,
      and is at least the prescaler itself. */
  lemma TierBounds(d: int)
    requires 122 <= d <= F_CPU / 2
    ensures PrescalerTier(d) < 4
    ensures PRESCALERS[PrescalerTier(d)] <= d < PRESCALERS[PrescalerTier(d)] * 0x1_0000
  {
  }

  /** `(d + p / 2) / p` is `d / p` rounded to nearest, and lies in `1 .. 65536`
      when `d` is at least `p` and below `p * 65536`. */
  lemma RoundedDivision(d: int, p: int)
    requires 1 <= p <= d < p * 0x1_0000
    ensures var q := (d + p / 2) / p;
      1 <= q <= 0x1_0000 && -(p / 2) <= d - q * p < p - p / 2
  {
    var q, r := (d + p / 2) / p, (d + p / 2) % p;
    assert d + p / 2 == q * p + r && 0 <= r < p;
    DivLowerBound(d + p / 2, p, 1);
    assert q <= 0x1_0000 by {
      assert (0x1_0000 - q) * p > -p;
      if q > 0x1_0000 {
        MulNonneg(q - 0x1_0001, p);
      }
    }
  }

  // ---------------------------------------------------------------- playback

  /** The player's globals: `idx`, `sound`, `snd_ptr` and `snd_len`. */
  datatype State = State(idx: u8, sound: bool, sndPtr: u16, sndLen: u8)

  /** The flash address space a 16-bit `snd_ptr` reaches. */
  type Flash = s: seq<bv8> | |s| == 0x1_0000 witness seq(0x1_0000, _ => 0)

  /** What one interrupt does to the speaker. */
  datatype Action =
    | Silent                                   // sound is off: nothing happens
    | Tone(freq: u16, timer: TimerConfig)      // the timer is retuned
    | DivideByZero                             // a zero byte: the frequency divides by zero
    | Off                                      // the end of the sound: `off()`

  /** The frequency of an inverse-frequency byte: 1192030 / (60 * b). */
  function Frequency(b: bv8): (f: u16)
    requires b != 0
    ensures 77 <= f <= 19867
  {
    var n := 60 * (b as int);
    DivLowerBound(1192030, n, 77);
    1192030 / n
  }

  /** The action for a tone byte. */
  function ToneOf(b: bv8): Action {
    if b == 0 then DivideByZero else Tone(Frequency(b), SetFrequency(Frequency(b)))
  }

  /** `playSound(snd, len)`: the pointer and length are set and the sound
      switched on; the position `idx` is left as it is. */
  function PlaySound(s: State, ptr: u16, len: u8): (r: State)
    ensures r.sound && r.sndPtr == ptr && r.sndLen == len && r.idx == s.idx
  {
    State(s.idx, true, ptr, len)
  }

  /** A state and the action taken to reach it. */
  datatype Step = Step(state: State, action: Action)

  /** The interrupt body as written: `idx` is compared, then incremented,
      and the byte at the incremented position is played. */
  function IsrStepAsWritten(s: State, flash: Flash): (r: Step)
    ensures !s.sound ==> r == Step(s, Silent)
    ensures s.sound && s.idx < s.sndLen ==>
      r.state == s.(idx := s.idx + 1) && r.action == ToneOf(flash[Wrap16(s.sndPtr + r.state.idx)])
    ensures s.sound && s.idx >= s.sndLen ==> r == Step(State(0, false, s.sndPtr, s.sndLen), Off)
  {
    if !s.sound then Step(s, Silent)
    else if s.idx < s.sndLen then
      var idx := s.idx + 1;
      Step(s.(idx := idx), ToneOf(flash[Wrap16(s.sndPtr + idx)]))
    else Step(s.(idx := 0, sound := false), Off)
  }

  /** The interrupt body with the byte read before `idx` moves on. */
  function IsrStep(s: State, flash: Flash): (r: Step)
    ensures !s.sound ==> r == Step(s, Silent)
    ensures s.sound && s.idx < s.sndLen ==>
      r.state == s.(idx := s.idx + 1) && r.action == ToneOf(flash[Wrap16(s.sndPtr + s.idx)])
    ensures s.sound && s.idx >= s.sndLen ==> r == Step(State(0, false, s.sndPtr, s.sndLen), Off)
  {
    if !s.sound then Step(s, Silent)
    else if s.idx < s.sndLen then
      Step(s.(idx := s.idx + 1), ToneOf(flash[Wrap16(s.sndPtr + s.idx)]))
    else Step(s.(idx := 0, sound := false), Off)
  }

  /** The actions of `n` interrupts and the state they leave. */
  datatype Trace = Trace(actions: seq<Action>, final: State)

  function RunAsWritten(s: State, flash: Flash, n: nat): Trace
    decreases n
  {
    if n == 0 then Trace([], s)
    else
      var st := IsrStepAsWritten(s, flash);
      var rest := RunAsWritten(st.state, flash, n - 1);
      Trace([st.action] + rest.actions, rest.final)
  }

  function Run(s: State, flash: Flash, n: nat): Trace
    decreases n
  {
    if n == 0 then Trace([], s)
    else
      var st := IsrStep(s, flash);
      var rest := Run(st.state, flash, n - 1);
      Trace([st.action] + rest.actions, rest.final)
  }

  /** The tones of the bytes at offsets `from` to `to - 1` after `ptr`. */
  function Tones(flash: Flash, ptr: u16, from: nat, to: nat): (t: seq<Action>)
    requires from <= to
    ensures |t| == to - from
    ensures forall k | 0 <= k < to - from :: t[k] == ToneOf(flash[Wrap16(ptr + from + k)])
  {
    seq(to - from, k requires 0 <= k < to - from => ToneOf(flash[Wrap16(ptr + from + k)]))
  }

  /** The tones from `from` are the tone of byte `from` followed by those from `from + 1`. */
  lemma TonesCons(flash: Flash, ptr: u16, from: nat, to: nat)
    requires from < to
    ensures Tones(flash, ptr, from, to) == [ToneOf(flash[Wrap16(ptr + from)])] + Tones(flash, ptr, from + 1, to)
  {
    var t, rest := Tones(flash, ptr, from, to), Tones(flash, ptr, from + 1, to);
    forall k | 1 <= k < |t|
      ensures t[k] == rest[k - 1]
    {
      assert ptr + from + k == ptr + (from + 1) + (k - 1);
    }
  }

  /** From position `i`, the interrupt as written plays bytes `i + 1 .. len`,
      then turns the speaker off and rewinds. */
  lemma {:induction false} PlaybackAsWrittenFrom(flash: Flash, ptr: u16, len: u8, i: u8)
    requires i <= len
    ensures RunAsWritten(State(i, true, ptr, len), flash, len - i + 1)
         == Trace(Tones(flash, ptr, i + 1, len + 1) + [Off], State(0, false, ptr, len))
    decreases len - i
  {
    var s := State(i, true, ptr, len);
    if i == len {
      assert Tones(flash, ptr, i + 1, len + 1) == [];
    } else {
      assert IsrStepAsWritten(s, flash) == Step(State(i + 1, true, ptr, len), ToneOf(flash[Wrap16(ptr + (i + 1))]));
      PlaybackAsWrittenFrom(flash, ptr, len, i + 1);
      TonesCons(flash, ptr, i + 1, len + 1);
    }
  }

  /** A sound started from a rewound player plays bytes 1 .. len as written:
      its first byte is skipped and the byte just past it is read. */
  lemma PlaybackAsWritten(flash: Flash, ptr: u16, len: u8)
    ensures RunAsWritten(State(0, true, ptr, len), flash, len + 1)
         == Trace(Tones(flash, ptr, 1, len + 1) + [Off], State(0, false, ptr, len))
  {
    PlaybackAsWrittenFrom(flash, ptr, len, 0);
  }

  /** From position `i`, the corrected interrupt plays bytes `i .. len - 1`,
      then turns the speaker off and rewinds. */
  lemma {:induction false} PlaybackFrom(flash: Flash, ptr: u16, len: u8, i: u8)
    requires i <= len
    ensures Run(State(i, true, ptr, len), flash, len - i + 1)
         == Trace(Tones(flash, ptr, i, len) + [Off], State(0, false, ptr, len))
    decreases len - i
  {
    if i == len {
      assert Tones(flash, ptr, i, len) == [];
    } else {
      assert IsrStep(State(i, true, ptr, len), flash) == Step(State(i + 1, true, ptr, len), ToneOf(flash[Wrap16(ptr + i)]));
      PlaybackFrom(flash, ptr, len, i + 1);
      TonesCons(flash, ptr, i, len);
    }
  }

  /** A sound started from a rewound player plays exactly its `len` bytes. */
  lemma Playback(flash: Flash, ptr: u16, len: u8)
    ensures Run(State(0, true, ptr, len), flash, len + 1)
         == Trace(Tones(flash, ptr, 0, len) + [Off], State(0, false, ptr, len))
  {
    PlaybackFrom(flash, ptr, len, 0);
  }

  /** Once a sound ends the player stays silent and unchanged. */
  lemma IdleStays(s: State, flash: Flash, n: nat)
    requires !s.sound
    ensures RunAsWritten(s, flash, n) == Trace(seq(n, _ => Silent), s)
    ensures Run(s, flash, n) == Trace(seq(n, _ => Silent), s)
  {
    if n > 0 {
      IdleStays(s, flash, n - 1);
      assert seq(n, _ => Silent) == [Silent] + seq(n - 1, _ => Silent);
    }
  }

  /** Because `playSound` keeps `idx`, a sound started while another one is
      at position `i` begins its own table at byte `i + 1`, or ends at once
      when it is shorter than `i + 1` bytes. */
  lemma RestartKeepsPosition(s: State, flash: Flash, ptr: u16, len: u8)
    requires s.sound
    ensures var st := IsrStepAsWritten(PlaySound(s, ptr, len), flash);
      if s.idx < len then st.action == ToneOf(flash[Wrap16(ptr + s.idx + 1)])
      else st.action == Off && !st.state.sound
  {
  }

  // ---------------------------------------------------------------- tone tables

  const SHOOT_SND_LEN := 27
  const SHOOT_SND: seq<bv8> := [
    0x10, 0x10, 0x10, 0x6e, 0x2a, 0x20, 0x28, 0x28, 0x9b, 0x28, 0x20, 0x20, 0x21, 0x57,
    0x20, 0x20, 0x20, 0x67, 0x20, 0x20, 0x29, 0x20, 0x73, 0x20, 0x20, 0x20, 0x89]

  const GET_KEY_SND_LEN := 90
  /** The 90 bytes of `get_key_snd`, written as runs of equal bytes. */
  const GET_KEY_SND: seq<bv8> :=
    seq(23, _ => 0x24) + seq(7, _ => 0x20) + seq(10, _ => 0x37) + seq(4, _ => 0x20)
    + seq(10, _ => 0x37) + seq(4, _ => 0x20) + seq(10, _ => 0x37) + seq(6, _ => 0x20) + seq(16, _ => 0x19)

  const HIT_WALL_SND_LEN := 8
  const HIT_WALL_SND: seq<bv8> := [0x83, 0x83, 0x82, 0x8e, 0x8a, 0x89, 0x86, 0x84]

  const WALK1_SND_LEN := 3
  const WALK1_SND: seq<bv8> := [0x8f, 0x8e, 0x8e]

  const WALK2_SND_LEN := 3
  const WALK2_SND: seq<bv8> := [0x84, 0x87, 0x84]

  /** A table of `len` playable tones: no zero byte. */
  predicate Playable(table: seq<bv8>, len: int) {
    |table| == len && forall k | 0 <= k < |table| :: table[k] != 0
  }

  /** Every table has its declared length and no zero byte, so each of its
      tones is between 77 Hz and 19867 Hz and never divides by zero. */
  lemma TablesPlayable()
    ensures Playable(SHOOT_SND, SHOOT_SND_LEN)
    ensures Playable(GET_KEY_SND, GET_KEY_SND_LEN)
    ensures Playable(HIT_WALL_SND, HIT_WALL_SND_LEN)
    ensures Playable(WALK1_SND, WALK1_SND_LEN)
    ensures Playable(WALK2_SND, WALK2_SND_LEN)
  {
  }

  /** As written, the `k`-th tone of a playable table is its byte `k + 1`,
      for every `k` but the last. */
  lemma AsWrittenInnerTone(flash: Flash, ptr: u16, table: seq<bv8>, len: u8, k: nat)
    requires Playable(table, len) && ptr + len <= 0x1_0000
    requires flash[ptr..ptr + len] == table
    requires k < len - 1
    ensures Tones(flash, ptr, 1, len + 1)[k] == Tone(Frequency(table[k + 1]), SetFrequency(Frequency(table[k + 1])))
  {
    assert Wrap16(ptr + 1 + k) == ptr + (k + 1);
    assert flash[ptr + (k + 1)] == table[k + 1];
  }

  /** As written, only the last tone of a playable table can divide by zero,
      and it does when the byte after the table is 0. */
  lemma AsWrittenZeroIsLast(flash: Flash, ptr: u16, table: seq<bv8>, len: u8, k: nat)
    requires Playable(table, len) && ptr + len <= 0x1_0000
    requires flash[ptr..ptr + len] == table
    requires k < len && Tones(flash, ptr, 1, len + 1)[k] == DivideByZero
    ensures k == len - 1 && flash[Wrap16(ptr + len)] == 0
  {
    if k < len - 1 {
      AsWrittenInnerTone(flash, ptr, table, len, k);
    } else {
      assert ptr + 1 + k == ptr + len;
    }
  }

  /** As written, a playable table stored at `ptr` is played from its second
      byte on, and the last tone is read from the byte after the table: the
      sound divides by zero exactly when that byte is 0. */
  lemma PlayableTableTonesAsWritten(flash: Flash, ptr: u16, table: seq<bv8>, len: u8)
    requires Playable(table, len) && ptr + len <= 0x1_0000
    requires flash[ptr..ptr + len] == table
    ensures var acts := RunAsWritten(State(0, true, ptr, len), flash, len + 1).actions;
      && |acts| == len + 1
      && (forall k | 0 <= k < len - 1 ::
            acts[k] == Tone(Frequency(table[k + 1]), SetFrequency(Frequency(table[k + 1]))))
      && (DivideByZero in acts <==> len >= 1 && flash[Wrap16(ptr + len)] == 0)
  {
    PlaybackAsWritten(flash, ptr, len);
    var tones := Tones(flash, ptr, 1, len + 1);
    forall k | 0 <= k < len - 1
      ensures tones[k] == Tone(Frequency(table[k + 1]), SetFrequency(Frequency(table[k + 1])))
    {
      AsWrittenInnerTone(flash, ptr, table, len, k);
    }
    if DivideByZero in tones + [Off] {
      assert DivideByZero in tones;
      var k :| 0 <= k < len && tones[k] == DivideByZero;
      AsWrittenZeroIsLast(flash, ptr, table, len, k);
    }
    if len >= 1 && flash[Wrap16(ptr + len)] == 0 {
      assert ptr + 1 + (len - 1) == ptr + len;
      assert (tones + [Off])[len - 1] == DivideByZero;
    }
  }

  /** A playable table stored at `ptr` is played in full by the corrected
      interrupt, each byte as a tone and none as a division by zero. */
  lemma PlayableTableTones(flash: Flash, ptr: u16, table: seq<bv8>, len: u8)
    requires Playable(table, len) && ptr + len <= 0x1_0000
    requires flash[ptr..ptr + len] == table
    ensures forall k | 0 <= k < len ::
      Tones(flash, ptr, 0, len)[k] == Tone(Frequency(table[k]), SetFrequency(Frequency(table[k])))
  {
    forall k | 0 <= k < len
      ensures Tones(flash, ptr, 0, len)[k] == Tone(Frequency(table[k]), SetFrequency(Frequency(table[k])))
    {
      assert Wrap16(ptr + 0 + k) == ptr + k;
      assert flash[ptr + k] == table[k];
    }
  }

  /** As written, the last tone of a table stored at `ptr` is read from the
      byte after the table. */
  lemma AsWrittenReadsPastTable(flash: Flash, ptr: u16, len: u8)
    requires 1 <= len && ptr + len < 0x1_0000
    ensures Tones(flash, ptr, 1, len + 1)[len - 1] == ToneOf(flash[ptr + len])
  {
  }
}
