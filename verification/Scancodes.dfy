/** PS2_get_char of kernel/src/drivers/ps2.c: one key event from the scancode bytes (set 2). */
module Scancodes {
  import opened Words

  const EXTENDED_PREFIX: Byte := 0xE0
  const RELEASE_PREFIX: Byte := 0xF0

  datatype Modifiers = Modifiers(lshift: bool, rshift: bool, lctrl: bool, rctrl: bool, lalt: bool, ralt: bool)

  datatype KeyEvent = KeyEvent(scancode: Byte, released: bool, modifiers: Modifiers)

  predicate IsModifier(c: Byte, extended: bool) {
    c == 0x14 || c == 0x11 || (!extended && (c == 0x12 || c == 0x59))
  }

  /** The byte ends the call. */
  predicate Ends(c: Byte, extended: bool) {
    c != 0 && c != EXTENDED_PREFIX && c != RELEASE_PREFIX && !IsModifier(c, extended)
  }

  /** A modifier byte is latched; no byte ever clears one. */
  function Latch(m: Modifiers, c: Byte, extended: bool): Modifiers {
    if c == 0x14 then (if extended then m.(rctrl := true) else m.(lctrl := true))
    else if c == 0x11 then (if extended then m.(ralt := true) else m.(lalt := true))
    else if !extended && c == 0x12 then m.(lshift := true)
    else if !extended && c == 0x59 then m.(rshift := true)
    else m
  }

  /** The call on a stream of bytes: the event, if one is complete, the modifiers and the bytes left. */
  datatype Outcome = Outcome(event: Option<KeyEvent>, modifiers: Modifiers, rest: seq<Byte>)

  function Scan(s: seq<Byte>, extended: bool, released: bool, m: Modifiers): (o: Outcome)
    ensures o.event.Some? ==> |o.rest| < |s|
  {
    if s == [] then Outcome(None, m, [])
    else if Ends(s[0], extended) then Outcome(Some(KeyEvent(s[0], released, m)), m, s[1..])
    else Scan(s[1..], extended || s[0] == EXTENDED_PREFIX, released || s[0] == RELEASE_PREFIX, Latch(m, s[0], extended))
  }

  // ----- what one call returns, without the scan -----

  /** The byte at i is neither a prefix nor nothing nor a modifier: control, alt, or a shift that no
      extended prefix precedes. */
  predicate EndsAt(s: seq<Byte>, i: nat) {
    i < |s| && s[i] !in {0, 0xE0, 0xF0, 0x14, 0x11} && (s[i] in {0x12, 0x59} ==> 0xE0 in s[..i])
  }

  /** The first byte that ends the call. */
  predicate FirstEnd(s: seq<Byte>, t: nat) {
    EndsAt(s, t) && forall i :: 0 <= i < t ==> !EndsAt(s, i)
  }

  /** The code came by before position n, with or without an extended prefix before it. */
  predicate Passed(s: seq<Byte>, n: nat, code: Byte, extended: bool) {
    exists i :: 0 <= i < n && i < |s| && s[i] == code && (0xE0 in s[..i]) == extended
  }

  predicate PlainLatched(m: Modifiers, r: Modifiers, s: seq<Byte>, n: nat) {
    && (r.lshift <==> m.lshift || Passed(s, n, 0x12, false)) && (r.rshift <==> m.rshift || Passed(s, n, 0x59, false))
    && (r.lctrl <==> m.lctrl || Passed(s, n, 0x14, false)) && (r.lalt <==> m.lalt || Passed(s, n, 0x11, false))
  }

  /** After the first n bytes the modifiers are the old ones and those that came by. */
  predicate LatchedBy(m: Modifiers, r: Modifiers, s: seq<Byte>, n: nat) {
    && PlainLatched(m, r, s, n)
    && (r.rctrl <==> m.rctrl || Passed(s, n, 0x14, true)) && (r.ralt <==> m.ralt || Passed(s, n, 0x11, true))
  }

  class Keyboard {
    var modifiers: Modifiers   // static mod
    var input: seq<Byte>       // bytes PS2_get_scancode will deliver

    constructor (input: seq<Byte>)
      ensures this.input == input && modifiers == Modifiers(false, false, false, false, false, false)
    {
      this.input := input;
      modifiers := Modifiers(false, false, false, false, false, false);
    }

    /** PS2_get_char up to the ASCII table.  None: the bytes so far complete no event and the call is
        still waiting. */
    method GetChar() returns (k: Option<KeyEvent>)
      modifies this
      ensures Outcome(k, modifiers, input) == Scan(old(input), false, false, old(modifiers))
    {
      var extended, released := false, false;
      var scancode: Byte := 0;
      ghost var target := Scan(input, false, false, modifiers);
      while scancode == 0
        invariant scancode != 0 ==> target == Outcome(Some(KeyEvent(scancode, released, modifiers)), modifiers, input)
        invariant scancode == 0 ==> target == Scan(input, extended, released, modifiers)
        decreases scancode == 0, |input|
      {
        if input == [] {
          return None;
        }
        var c := input[0];
        input := input[1..];
        if c == EXTENDED_PREFIX {
          extended := true;
        } else if c == RELEASE_PREFIX {
          released := true;
        } else if extended {
          if c == 0x14 {
            modifiers := modifiers.(rctrl := true);
          } else if c == 0x11 {
            modifiers := modifiers.(ralt := true);
          } else {
            scancode := c;
          }
        } else {
          if c == 0x12 {
            modifiers := modifiers.(lshift := true);
          } else if c == 0x59 {
            modifiers := modifiers.(rshift := true);
          } else if c == 0x14 {
            modifiers := modifiers.(lctrl := true);
          } else if c == 0x11 {
            modifiers := modifiers.(lalt := true);
          } else {
            scancode := c;
          }
        }
      }
      k := Some(KeyEvent(scancode, released, modifiers));
    }
  }

  lemma ScanStep(s: seq<Byte>, k: nat, m: Modifiers)
    requires k < |s|
    ensures Scan(s[k..], 0xE0 in s[..k], 0xF0 in s[..k], m)
            == if EndsAt(s, k) then Outcome(Some(KeyEvent(s[k], 0xF0 in s[..k], m)), m, s[k + 1..])
               else Scan(s[k + 1..], 0xE0 in s[..k + 1], 0xF0 in s[..k + 1],
                         Latch(m, s[k], 0xE0 in s[..k]))
  {
    assert s[k..][0] == s[k] && s[k..][1..] == s[k + 1..];
    assert s[..k + 1] == s[..k] + [s[k]];
  }

  lemma {:induction false} ScanFrom(s: seq<Byte>, k: nat, m0: Modifiers, m: Modifiers) returns (t: nat)
    requires k <= |s| && LatchedBy(m0, m, s, k) && forall i :: 0 <= i < k ==> !EndsAt(s, i)
    ensures var o := Scan(s[k..], 0xE0 in s[..k], 0xF0 in s[..k], m);
            && LatchedBy(m0, o.modifiers, s, t)
            && match o.event
               case None => t == |s| && (forall i :: 0 <= i < |s| ==> !EndsAt(s, i)) && o.rest == []
               case Some(e) => t < |s| && FirstEnd(s, t) && o.rest == s[t + 1..]
                               && e == KeyEvent(s[t], 0xF0 in s[..t], o.modifiers)
    decreases |s| - k
  {
    t := k;
    if k < |s| {
      ScanStep(s, k, m);
      if !EndsAt(s, k) {
        LatchStep(s, k, m0, m);
        t := ScanFrom(s, k + 1, m0, Latch(m, s[k], 0xE0 in s[..k]));
      }
    }
  }

  lemma PassedStep(s: seq<Byte>, k: nat, code: Byte, extended: bool)
    requires k < |s|
    ensures Passed(s, k + 1, code, extended) <==>
              Passed(s, k, code, extended) || (s[k] == code && (0xE0 in s[..k]) == extended)
  {
  }

  lemma PlainLatchStep(s: seq<Byte>, k: nat, m0: Modifiers, m: Modifiers)
    requires k < |s| && PlainLatched(m0, m, s, k)
    ensures PlainLatched(m0, Latch(m, s[k], 0xE0 in s[..k]), s, k + 1)
  {
    PassedStep(s, k, 0x12, false);
    PassedStep(s, k, 0x59, false);
    PassedStep(s, k, 0x14, false);
    PassedStep(s, k, 0x11, false);
  }

  lemma LatchStep(s: seq<Byte>, k: nat, m0: Modifiers, m: Modifiers)
    requires k < |s| && LatchedBy(m0, m, s, k)
    ensures LatchedBy(m0, Latch(m, s[k], 0xE0 in s[..k]), s, k + 1)
  {
    PlainLatchStep(s, k, m0, m);
    PassedStep(s, k, 0x14, true);
    PassedStep(s, k, 0x11, true);
  }

  /** What a call makes of its next byte, in the codes of scan code set 2. */
  lemma NextByte(c: Byte, s: seq<Byte>, extended: bool, released: bool, m: Modifiers)
    ensures Scan([c] + s, extended, released, m) ==
            match c
            case 0xE0 => Scan(s, true, released, m)
            case 0xF0 => Scan(s, extended, true, m)
            case 0 => Scan(s, extended, released, m)
            case 0x14 => Scan(s, extended, released, if extended then m.(rctrl := true) else m.(lctrl := true))
            case 0x11 => Scan(s, extended, released, if extended then m.(ralt := true) else m.(lalt := true))
            case 0x12 => if extended then Outcome(Some(KeyEvent(0x12, released, m)), m, s)
                         else Scan(s, extended, released, m.(lshift := true))
            case 0x59 => if extended then Outcome(Some(KeyEvent(0x59, released, m)), m, s)
                         else Scan(s, extended, released, m.(rshift := true))
            case _ => Outcome(Some(KeyEvent(c, released, m)), m, s)
  {
    assert ([c] + s)[1..] == s;
  }

  /** One call consumes the bytes through the first one that ends it and no more.  Its scancode is
      that byte, it is a release exactly when an F0 came anywhere before it, and the modifiers are
      the old ones and all those that came by, pressed or released. */
  lemma CallMeaning(s: seq<Byte>, m: Modifiers)
    ensures var o := Scan(s, false, false, m);
            match o.event
            case None => (forall i :: 0 <= i < |s| ==> !EndsAt(s, i)) && o.rest == [] && LatchedBy(m, o.modifiers, s, |s|)
            case Some(e) =>
              exists t :: 0 <= t < |s| && FirstEnd(s, t) && o.rest == s[t + 1..]
                && e == KeyEvent(s[t], 0xF0 in s[..t], o.modifiers) && LatchedBy(m, o.modifiers, s, t)
  {
    assert s[0..] == s && s[..0] == [];
    var t := ScanFrom(s, 0, m, m);
  }

  // ----- decoding what a keyboard sends -----

  /** A key going down or up. */
  datatype Key = Key(extended: bool, released: bool, code: Byte)

  /** A key's own code is none of the prefixes. */
  predicate IsKey(k: Key) {
    k.code !in {0, 0xE0, 0xF0}
  }

  function Encode(k: Key): seq<Byte> {
    (if k.extended then [0xE0] else []) + (if k.released then [0xF0] else []) + [k.code]
  }

  function EncodeAll(ks: seq<Key>): seq<Byte> {
    if ks == [] then [] else Encode(ks[0]) + EncodeAll(ks[1..])
  }

  /** A key other than a modifier. */
  predicate Ordinary(k: Key) {
    Ends(k.code, k.extended)
  }

  /** The events of repeated calls. */
  function DecodeAll(s: seq<Byte>, m: Modifiers): seq<KeyEvent>
    decreases |s|
  {
    var o := Scan(s, false, false, m);
    if o.event.None? then [] else [o.event.value] + DecodeAll(o.rest, o.modifiers)
  }

  function Reported(ks: seq<Key>, m: Modifiers): seq<KeyEvent> {
    seq(|ks|, i requires 0 <= i < |ks| => KeyEvent(ks[i].code, ks[i].released, m))
  }

  /** The bytes of one key, whatever the call has already seen. */
  lemma ScanKey(k: Key, rest: seq<Byte>, extended: bool, released: bool, m: Modifiers)
    requires IsKey(k)
    ensures Scan(Encode(k) + rest, extended, released, m) ==
            if Ends(k.code, extended || k.extended)
            then Outcome(Some(KeyEvent(k.code, released || k.released, m)), m, rest)
            else Scan(rest, extended || k.extended, released || k.released, Latch(m, k.code, extended || k.extended))
  {
    var s := Encode(k) + rest;
    var s1 := (if k.released then [0xF0] else []) + [k.code] + rest;
    var s2 := [k.code] + rest;
    assert k.extended ==> s[1..] == s1;
    assert !k.extended ==> s == s1;
    assert k.released ==> s1[1..] == s2;
    assert !k.released ==> s1 == s2;
    assert s2[1..] == rest;
    assert Scan(s, extended, released, m) == Scan(s1, extended || k.extended, released, m);
    assert Scan(s1, extended || k.extended, released, m)
        == Scan(s2, extended || k.extended, released || k.released, m);
  }

  lemma DecodeOne(k: Key, rest: seq<Byte>, m: Modifiers)
    requires Ordinary(k)
    ensures DecodeAll(Encode(k) + rest, m) == [KeyEvent(k.code, k.released, m)] + DecodeAll(rest, m)
  {
    ScanKey(k, rest, false, false, m);
  }

  /** Decoding the bytes of any sequence of ordinary makes and breaks gives back every code and every
      make/break in order, and leaves the modifiers alone. */
  lemma {:induction false} OrdinaryKeysRoundTrip(ks: seq<Key>, m: Modifiers)
    requires forall i :: 0 <= i < |ks| ==> Ordinary(ks[i])
    ensures DecodeAll(EncodeAll(ks), m) == Reported(ks, m)
  {
    if ks != [] {
      DecodeOne(ks[0], EncodeAll(ks[1..]), m);
      OrdinaryKeysRoundTrip(ks[1..], m);
      assert Reported(ks, m) == [KeyEvent(ks[0].code, ks[0].released, m)] + Reported(ks[1..], m);
    }
  }

  // ----- keys and modifiers mixed -----

  predicate Modifier(k: Key) {
    IsKey(k) && !Ordinary(k)
  }

  predicate PlainShift(k: Key) {
    !k.extended && (k.code == 0x12 || k.code == 0x59)
  }

  /** Some key of the sequence was released. */
  predicate AnyReleased(ks: seq<Key>) {
    exists i :: 0 <= i < |ks| && ks[i].released
  }

  predicate AnyExtended(ks: seq<Key>) {
    exists i :: 0 <= i < |ks| && ks[i].extended
  }

  lemma AnyStep(ks: seq<Key>)
    requires ks != []
    ensures AnyReleased(ks) <==> ks[0].released || AnyReleased(ks[1..])
    ensures AnyExtended(ks) <==> ks[0].extended || AnyExtended(ks[1..])
  {
    forall i | 0 <= i < |ks[1..]| ensures ks[1..][i] == ks[i + 1] { }
    assert forall i :: 0 < i < |ks| ==> ks[i] == ks[1..][i - 1];
  }

  /** The position of the key that ends the call, if extended says what the call has seen before. */
  function EndIndex(ks: seq<Key>, extended: bool): (t: nat)
    ensures t <= |ks|
  {
    if ks == [] || Ends(ks[0].code, extended || ks[0].extended) then 0
    else 1 + EndIndex(ks[1..], extended || ks[0].extended)
  }

  lemma {:induction false} ScanKeys(ks: seq<Key>, rest: seq<Byte>, extended: bool, released: bool, m: Modifiers)
    requires forall i :: 0 <= i < |ks| ==> IsKey(ks[i])
    requires EndIndex(ks, extended) < |ks|
    ensures var t := EndIndex(ks, extended);
            var o := Scan(EncodeAll(ks) + rest, extended, released, m);
            && o.event.Some? && o.event.value.scancode == ks[t].code
            && o.event.value.released == (released || AnyReleased(ks[..t + 1]))
            && o.rest == EncodeAll(ks[t + 1..]) + rest
    decreases |ks|
  {
    var t, e := EndIndex(ks, extended), extended || ks[0].extended;
    var tail := EncodeAll(ks[1..]) + rest;
    assert EncodeAll(ks) + rest == Encode(ks[0]) + tail;
    ScanKey(ks[0], tail, extended, released, m);
    AnyStep(ks[..t + 1]);
    if t > 0 {
      ScanKeys(ks[1..], rest, e, released || ks[0].released, Latch(m, ks[0].code, e));
      assert ks[..t + 1][1..] == ks[1..][..t];
    } else {
      assert ks[..1][1..] == [];
    }
  }

  /** A plain shift in a call that has seen an extended prefix. */
  predicate StrayAt(ms: seq<Key>, i: nat, extended: bool) {
    i < |ms| && PlainShift(ms[i]) && (extended || AnyExtended(ms[..i]))
  }

  /** Among modifiers followed by an ordinary key, the first stray shift ends the call, or else the key. */
  lemma {:induction false} EndIndexOfModifiers(ms: seq<Key>, k: Key, extended: bool)
    requires (forall i :: 0 <= i < |ms| ==> Modifier(ms[i])) && Ordinary(k)
    ensures var t := EndIndex(ms + [k], extended);
            t <= |ms| && (t < |ms| ==> StrayAt(ms, t, extended)) && forall i: nat :: i < t ==> !StrayAt(ms, i, extended)
    decreases |ms|
  {
    var t := EndIndex(ms + [k], extended);
    if ms != [] && !Ends(ms[0].code, extended || ms[0].extended) {
      var e := extended || ms[0].extended;
      assert (ms + [k])[1..] == ms[1..] + [k];
      EndIndexOfModifiers(ms[1..], k, e);
      forall i: nat | 0 < i < |ms| ensures StrayAt(ms, i, extended) <==> StrayAt(ms[1..], i - 1, e) {
        AnyStep(ms[..i]);
        assert ms[..i][1..] == ms[1..][..i - 1];
      }
    }
  }

  predicate NoStray(ms: seq<Key>) {
    forall i: nat :: i < |ms| ==> !StrayAt(ms, i, false)
  }

  predicate FirstStrayAt(ms: seq<Key>, t: nat) {
    StrayAt(ms, t, false) && forall i: nat :: i < t ==> !StrayAt(ms, i, false)
  }

  lemma KeyWithoutStray(ms: seq<Key>, k: Key, rest: seq<Byte>, m: Modifiers)
    requires (forall i :: 0 <= i < |ms| ==> Modifier(ms[i])) && Ordinary(k) && NoStray(ms)
    ensures var o := Scan(EncodeAll(ms + [k]) + rest, false, false, m);
            && o.event.Some? && o.event.value.scancode == k.code && o.rest == rest
            && o.event.value.released == (k.released || AnyReleased(ms))
  {
    var ks := ms + [k];
    assert EndIndex(ks, false) == |ms| by { EndIndexOfModifiers(ms, k, false); }
    ScanKeys(ks, rest, false, false, m);
    assert ks[..|ms| + 1] == ks && ks[|ms| + 1..] == [];
    assert EncodeAll([]) + rest == rest;
    AnyReleasedOfLast(ms, k);
  }

  lemma AnyReleasedOfLast(ms: seq<Key>, k: Key)
    ensures AnyReleased(ms + [k]) <==> k.released || AnyReleased(ms)
  {
    var ks := ms + [k];
    assert forall i :: 0 <= i < |ms| ==> ks[i] == ms[i];
    assert ks[|ms|] == k;
  }

  lemma StrayIsTheEvent(ms: seq<Key>, k: Key, rest: seq<Byte>, m: Modifiers, t: nat)
    requires (forall i :: 0 <= i < |ms| ==> Modifier(ms[i])) && Ordinary(k)
    requires FirstStrayAt(ms, t)
    ensures var o := Scan(EncodeAll(ms + [k]) + rest, false, false, m);
            && o.event.Some? && o.event.value.scancode == ms[t].code && o.event.value.released == AnyReleased(ms[..t + 1])
            && o.rest == EncodeAll(ms[t + 1..] + [k]) + rest != rest
  {
    var ks := ms + [k];
    assert EndIndex(ks, false) == t by { EndIndexOfModifiers(ms, k, false); }
    assert ks[t] == ms[t] && ks[..t + 1] == ms[..t + 1] && ks[t + 1..] == ms[t + 1..] + [k];
    ScanKeys(ks, rest, false, false, m);
    assert |EncodeAll(ms[t + 1..] + [k])| > 0;
  }

  lemma FirstStray(ms: seq<Key>) returns (t: nat)
    requires !NoStray(ms)
    ensures FirstStrayAt(ms, t)
  {
    t := 0;
    while !StrayAt(ms, t, false)
      invariant forall i: nat :: i < t ==> !StrayAt(ms, i, false)
      invariant t <= |ms|
      decreases |ms| - t
    {
      t := t + 1;
    }
  }

  /** A key after any modifiers, plain or extended.  It comes through as the make or break it was exactly
      when no shift follows an extended modifier and it was a break or none of the modifiers was
      released: the marks of one modifier are kept for whatever ends the call.  Without such a shift
      the code comes through, and the release mark is that of any key so far; with one, the first is
      reported as a key, and what follows is left for the next call. */
  lemma KeyAfterModifiersExactlyWhen(ms: seq<Key>, k: Key, rest: seq<Byte>, m: Modifiers)
    requires (forall i :: 0 <= i < |ms| ==> Modifier(ms[i])) && Ordinary(k)
    ensures var o := Scan(EncodeAll(ms + [k]) + rest, false, false, m);
            && o.event.Some?
            && (o.event.value.scancode == k.code && o.event.value.released == k.released && o.rest == rest
                <==> NoStray(ms) && (k.released || !AnyReleased(ms)))
            && (NoStray(ms) ==>
                  o.event.value.scancode == k.code && o.rest == rest
                  && o.event.value.released == (k.released || AnyReleased(ms)))
            && (forall t: nat :: FirstStrayAt(ms, t) ==>
                  o.event.value.scancode == ms[t].code && o.event.value.released == AnyReleased(ms[..t + 1])
                  && o.rest == EncodeAll(ms[t + 1..] + [k]) + rest)
  {
    if NoStray(ms) {
      KeyWithoutStray(ms, k, rest, m);
    } else {
      var t := FirstStray(ms);
      StrayIsTheEvent(ms, k, rest, m, t);
      assert forall t': nat :: FirstStrayAt(ms, t') ==> t' == t;
    }
  }

  /** In particular a shift right after right control or right alt is reported as a key. */
  lemma ShiftAfterExtendedModifier(k: Key, shift: Key, rest: seq<Byte>, m: Modifiers)
    requires k.extended && IsModifier(k.code, true) && PlainShift(shift)
    ensures var o := Scan(EncodeAll([k, shift]) + rest, false, false, m);
            o.event.Some? && o.event.value.scancode == shift.code && o.rest == rest
  {
    var ks := [k, shift];
    assert ks[1..] == [shift] && ks[2..] == [];
    assert EndIndex([shift], true) == 0;
    assert EndIndex(ks, false) == 1;
    ScanKeys(ks, rest, false, false, m);
    assert EncodeAll([]) + rest == rest;
  }

  // ----- a whole stream -----

  /** The events that the keys give, from a call on that has seen these marks. */
  function Report(ks: seq<Key>, extended: bool, released: bool, m: Modifiers): seq<KeyEvent> {
    if ks == [] then []
    else
      var e, r := extended || ks[0].extended, released || ks[0].released;
      if Ends(ks[0].code, e) then [KeyEvent(ks[0].code, r, m)] + Report(ks[1..], false, false, m)
      else Report(ks[1..], e, r, Latch(m, ks[0].code, e))
  }

  function DecodeFrom(s: seq<Byte>, extended: bool, released: bool, m: Modifiers): seq<KeyEvent> {
    var o := Scan(s, extended, released, m);
    if o.event.None? then [] else [o.event.value] + DecodeAll(o.rest, o.modifiers)
  }

  lemma DecodeStep(k: Key, tail: seq<Byte>, extended: bool, released: bool, m: Modifiers)
    requires IsKey(k)
    ensures var e, r := extended || k.extended, released || k.released;
            DecodeFrom(Encode(k) + tail, extended, released, m)
            == if Ends(k.code, e) then [KeyEvent(k.code, r, m)] + DecodeFrom(tail, false, false, m)
               else DecodeFrom(tail, e, r, Latch(m, k.code, e))
  {
    ScanKey(k, tail, extended, released, m);
  }

  lemma {:induction false} DecodeIsReport(ks: seq<Key>, extended: bool, released: bool, m: Modifiers)
    requires forall i :: 0 <= i < |ks| ==> IsKey(ks[i])
    ensures DecodeFrom(EncodeAll(ks), extended, released, m) == Report(ks, extended, released, m)
    decreases |ks|
  {
    if ks != [] {
      var e, r := extended || ks[0].extended, released || ks[0].released;
      DecodeStep(ks[0], EncodeAll(ks[1..]), extended, released, m);
      if Ends(ks[0].code, e) {
        DecodeIsReport(ks[1..], false, false, m);
      } else {
        DecodeIsReport(ks[1..], e, r, Latch(m, ks[0].code, e));
      }
    }
  }

  /** What was typed: the codes and make/break marks of the keys that are not modifiers. */
  function Typed(ks: seq<Key>): seq<(Byte, bool)> {
    if ks == [] then []
    else (if Ordinary(ks[0]) then [(ks[0].code, ks[0].released)] else []) + Typed(ks[1..])
  }

  function Seen(es: seq<KeyEvent>): (r: seq<(Byte, bool)>)
    ensures |r| == |es|
  {
    if es == [] then [] else [(es[0].scancode, es[0].released)] + Seen(es[1..])
  }

  /** The marks of an earlier key of the same call change what the key is taken for. */
  predicate Misread(k: Key, extended: bool, released: bool) {
    (extended && PlainShift(k)) || (released && Ordinary(k) && !k.released)
  }

  /** Between i and j there are only modifiers. */
  predicate OnlyModifiers(ks: seq<Key>, i: nat, j: nat) {
    forall x :: i <= x < j && x < |ks| ==> !Ordinary(ks[x])
  }

  /** No key is misread because of a modifier in front of it with only modifiers in between. */
  predicate Clean(ks: seq<Key>) {
    forall i: nat, j: nat :: i < j < |ks| && OnlyModifiers(ks, i, j) ==> !Misread(ks[j], ks[i].extended, ks[i].released)
  }

  predicate CleanFrom(ks: seq<Key>, extended: bool, released: bool) {
    Clean(ks) && forall j: nat :: j < |ks| && OnlyModifiers(ks, 0, j) ==> !Misread(ks[j], extended, released)
  }

  lemma OnlyModifiersLater(ks: seq<Key>, i: nat, j: nat)
    requires 0 < i <= j && ks != []
    ensures OnlyModifiers(ks, i, j) <==> OnlyModifiers(ks[1..], i - 1, j - 1)
  {
    assert forall x :: 0 <= x < |ks[1..]| ==> ks[1..][x] == ks[x + 1];
    assert forall x :: 0 < x < |ks| ==> ks[x] == ks[1..][x - 1];
  }

  lemma OnlyModifiersFirst(ks: seq<Key>, j: nat)
    requires 0 < j && ks != []
    ensures OnlyModifiers(ks, 0, j) <==> !Ordinary(ks[0]) && OnlyModifiers(ks, 1, j)
  {
  }

  lemma CleanStep(ks: seq<Key>, extended: bool, released: bool)
    requires ks != []
    ensures CleanFrom(ks, extended, released) <==>
              !Misread(ks[0], extended, released)
              && if Ordinary(ks[0]) then CleanFrom(ks[1..], false, false)
                 else CleanFrom(ks[1..], extended || ks[0].extended, released || ks[0].released)
  {
    var tail := ks[1..];
    forall i: nat, j: nat | 0 < i <= j ensures OnlyModifiers(ks, i, j) <==> OnlyModifiers(tail, i - 1, j - 1) {
      OnlyModifiersLater(ks, i, j);
    }
    forall j: nat | 0 < j ensures OnlyModifiers(ks, 0, j) <==> !Ordinary(ks[0]) && OnlyModifiers(tail, 0, j - 1) {
      OnlyModifiersFirst(ks, j);
    }
  }

  lemma {:induction false} ReportIsLongEnough(ks: seq<Key>, extended: bool, released: bool, m: Modifiers)
    ensures |Report(ks, extended, released, m)| >= |Typed(ks)|
    decreases |ks|
  {
    if ks != [] {
      var e, r := extended || ks[0].extended, released || ks[0].released;
      if Ends(ks[0].code, e) {
        ReportIsLongEnough(ks[1..], false, false, m);
      } else {
        ReportIsLongEnough(ks[1..], e, r, Latch(m, ks[0].code, e));
      }
    }
  }

  lemma SeenStep(e: KeyEvent, es: seq<KeyEvent>)
    ensures Seen([e] + es) == [(e.scancode, e.released)] + Seen(es)
  {
    assert ([e] + es)[1..] == es;
  }

  lemma HeadAndTail(a: (Byte, bool), s: seq<(Byte, bool)>, b: (Byte, bool), t: seq<(Byte, bool)>)
    ensures [a] + s == [b] + t <==> a == b && s == t
  {
    if [a] + s == [b] + t {
      assert ([a] + s)[0] == ([b] + t)[0];
      assert ([a] + s)[1..] == ([b] + t)[1..];
    }
  }

  lemma {:induction false} ReportRightExactlyWhen(ks: seq<Key>, extended: bool, released: bool, m: Modifiers)
    requires forall i :: 0 <= i < |ks| ==> IsKey(ks[i])
    ensures Seen(Report(ks, extended, released, m)) == Typed(ks) <==> CleanFrom(ks, extended, released)
    decreases |ks|
  {
    if ks != [] {
      var e, r := extended || ks[0].extended, released || ks[0].released;
      CleanStep(ks, extended, released);
      if Ends(ks[0].code, e) {
        var tail := Report(ks[1..], false, false, m);
        ReportIsLongEnough(ks[1..], false, false, m);
        ReportRightExactlyWhen(ks[1..], false, false, m);
        assert Report(ks, extended, released, m) == [KeyEvent(ks[0].code, r, m)] + tail;
        SeenStep(KeyEvent(ks[0].code, r, m), tail);
        if Ordinary(ks[0]) {
          HeadAndTail((ks[0].code, r), Seen(tail), (ks[0].code, ks[0].released), Typed(ks[1..]));
        }
      } else {
        ReportRightExactlyWhen(ks[1..], e, r, Latch(m, ks[0].code, e));
      }
    }
  }

  /** For every stream of keys, modifiers and others mixed: repeated calls report exactly the keys typed,
      as the makes and breaks they were, exactly when no modifier's marks reach a key they change. */
  lemma StreamRightExactlyWhen(ks: seq<Key>, m: Modifiers)
    requires forall i :: 0 <= i < |ks| ==> IsKey(ks[i])
    ensures Seen(DecodeAll(EncodeAll(ks), m)) == Typed(ks) <==> Clean(ks)
  {
    DecodeIsReport(ks, false, false, m);
    ReportRightExactlyWhen(ks, false, false, m);
    assert CleanFrom(ks, false, false) <==> Clean(ks);
  }
}
