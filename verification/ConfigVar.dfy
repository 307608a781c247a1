/** ConfigVar.cpp and ConfigReader.cpp: a buffer of integers and strings, and the store of named
    variables that is written to it and read back. */
module ConfigModel {
  import opened Options
  import opened Division
  import opened Bytes

  type Byte = n: nat | n < 256

  type Text = seq<Byte>

  /** 32 bit words, of which those below this are not negative. */
  const SIGN: nat := 0x8000_0000

  // ----- Integers -------------------------------------------------------------------------------

  /** The leading groups of seven bits, the highest first, each with its high bit set. */
  function Groups(h: nat): Text {
    if h == 0 then [] else Groups(h / 128) + [128 + h % 128]
  }

  /** An integer in as few bytes as it needs; only the last one has no high bit. */
  function IntBytes(v: nat): Text {
    Groups(v / 128) + [v % 128]
  }

  /** `k` groups, whether needed or not. */
  function AllGroups(h: nat, k: nat): (s: Text)
    ensures |s| == k
  {
    if k == 0 then [] else AllGroups(h / 128, k - 1) + [128 + h % 128]
  }

  function Shortened(s: Text): Text {
    if s != [] && s[0] == 128 then Shortened(s[1..]) else s
  }

  function Power(k: nat): (p: nat)
    ensures p > 0
  {
    if k == 0 then 1 else 128 * Power(k - 1)
  }

  lemma {:induction false} StrippedMore(s: Text, x: Byte)
    ensures Shortened(s + [x]) ==
      if Shortened(s) != [] then Shortened(s) + [x] else if x == 128 then [] else [x]
    decreases |s|
  {
    if s == [] {
      assert s + [x] == [x] && [x][1..] == [];
    } else if s[0] == 128 {
      assert (s + [x])[1..] == s[1..] + [x];
      StrippedMore(s[1..], x);
    }
  }

  /** Without the groups that are zero, as many groups as are enough are those that are needed. */
  lemma {:induction false} StrippedGroups(h: nat, k: nat)
    requires h < Power(k)
    ensures Shortened(AllGroups(h, k)) == Groups(h)
    decreases k
  {
    if k > 0 {
      QuotientBelow(h, Power(k - 1));
      StrippedGroups(h / 128, k - 1);
      StrippedMore(AllGroups(h / 128, k - 1), 128 + h % 128);
      if h == 0 {
        assert Groups(0) == [];
      } else {
        GroupsSome(h);
      }
    }
  }

  lemma QuotientBelow(h: nat, p: nat)
    requires h < 128 * p
    ensures h / 128 < p
  {
  }

  lemma GroupsSome(h: nat)
    ensures Groups(h) == [] <==> h == 0
  {
  }

  /** What `readInt` reads from `at` on: the value, in 32 bits, and where it stops. */
  function IntRead(buffer: Text, at: nat, value: nat): (nat, nat)
    requires at < |buffer|
    decreases |buffer| - at
  {
    var next := value * 128 % (2 * SIGN) + buffer[at] % 128;
    if buffer[at] >= 128 && at + 1 < |buffer| then IntRead(buffer, at + 1, next) else (next, at + 1)
  }

  lemma {:induction false} GroupsRead(p: Text, h: nat, rest: Text)
    requires h < SIGN / 64 && rest != []
    ensures var all := p + Groups(h) + rest;
      IntRead(all, |p|, 0) == IntRead(all, |p| + |Groups(h)|, h)
    decreases h
  {
    hide IntRead, Groups;
    GroupsIs(h);
    if h > 0 {
      var last := [128 + h % 128];
      assert p + Groups(h / 128) + (last + rest) == p + Groups(h) + rest;
      GroupsRead(p, h / 128, last + rest);
      var all := p + Groups(h) + rest;
      var at := |p| + |Groups(h / 128)|;
      assert all[at] == 128 + h % 128 && at + 1 < |all|;
      IntStep(all, at, h / 128);
      Rejoined(h);
    }
  }

  lemma GroupsIs(h: nat)
    ensures Groups(h) == if h == 0 then [] else Groups(h / 128) + [128 + h % 128]
  {
  }

  lemma IntStep(buffer: Text, at: nat, value: nat)
    requires at < |buffer|
    ensures var next := value * 128 % (2 * SIGN) + buffer[at] % 128;
      IntRead(buffer, at, value) ==
        if buffer[at] >= 128 && at + 1 < |buffer| then IntRead(buffer, at + 1, next) else (next, at + 1)
  {
  }

  lemma Rejoined(v: nat)
    requires v < 2 * SIGN
    ensures v / 128 * 128 % (2 * SIGN) + v % 128 == v && (128 + v % 128) % 128 == v % 128
  {
  }

  /** An integer is read as it was written, wherever it is and whatever follows. */
  lemma IntRoundTrip(p: Text, v: nat, rest: Text)
    requires v < 2 * SIGN
    ensures IntRead(p + IntBytes(v) + rest, |p|, 0) == (v, |p| + |IntBytes(v)|)
  {
    hide IntRead, Groups;
    var last := [v % 128];
    assert p + Groups(v / 128) + (last + rest) == p + IntBytes(v) + rest;
    GroupsRead(p, v / 128, last + rest);
    var all := p + IntBytes(v) + rest;
    var at := |p| + |Groups(v / 128)|;
    assert all[at] == v % 128;
    IntStep(all, at, v / 128);
    Rejoined(v);
  }

  /** There is no group that is not needed. */
  lemma {:induction false} GroupsNeeded(h: nat)
    ensures h < Power(|Groups(h)|)
    ensures h > 0 ==> Groups(h) != [] && Power(|Groups(h)| - 1) <= h
  {
    GroupsIs(h);
    hide Groups;
    if h > 0 {
      GroupsNeeded(h / 128);
      GroupsSome(h / 128);
      QuotientFits(h, Power(|Groups(h / 128)|));
      if h >= 128 { QuotientNeeds(h, Power(|Groups(h / 128)| - 1)); }
    }
  }

  lemma QuotientFits(h: nat, p: nat)
    requires h / 128 < p
    ensures h < 128 * p
  {
  }

  lemma QuotientNeeds(h: nat, p: nat)
    requires p <= h / 128
    ensures 128 * p <= h
  {
  }

  /** The groups are the digits of the number to the base 128. */
  lemma {:induction false} GroupAt(h: nat, k: nat)
    requires k < |Groups(h)|
    ensures Groups(h)[|Groups(h)| - 1 - k] == 128 + Digit(h, k)
    decreases k
  {
    GroupsIs(h);
    hide Groups;
    if k > 0 { GroupAt(h / 128, k - 1); }
  }

  /** Digit `k` of a number to the base 128. */
  function Digit(h: nat, k: nat): nat {
    if k == 0 then h % 128 else Digit(h / 128, k - 1)
  }

  /** The bytes of an integer are its digits to the base 128, the highest one first and none that is
      not needed, all but the last one with the high bit. */
  lemma IntBytesExactly(v: nat)
    ensures var s := IntBytes(v);
      && s != [] && v < Power(|s|) && (|s| > 1 ==> Power(|s| - 1) <= v)
      && forall k :: 0 <= k < |s| ==> s[|s| - 1 - k] == (if k == 0 then 0 else 128) + Digit(v, k)
  {
    hide Groups;
    var s, n := IntBytes(v), |Groups(v / 128)|;
    GroupsNeeded(v / 128);
    GroupsSome(v / 128);
    QuotientFits(v, Power(n));
    if n > 0 { QuotientNeeds(v, Power(n - 1)); }
    forall k | 0 <= k < |s| ensures s[|s| - 1 - k] == (if k == 0 then 0 else 128) + Digit(v, k) {
      if k > 0 { GroupAt(v / 128, k - 1); }
    }
  }

  // ----- The buffer -----------------------------------------------------------------------------

  class ConfigVar {
    var buffer: Text
    var offset: nat

    ghost predicate Valid()
      reads this
    {
      offset <= |buffer|
    }

    constructor (buffer: Text)
      ensures Valid() && this.buffer == buffer && offset == 0
    {
      this.buffer, this.offset := buffer, 0;
    }

    method ResetOffset()
      modifies this`offset
      ensures offset == 0
    {
      offset := 0;
    }

    method Read(bytes: nat) returns (data: Text)
      requires Valid()
      modifies this`offset
      ensures Valid() && offset == old(offset) + |data|
      ensures data == buffer[old(offset)..offset] && |data| == Min(bytes, |buffer| - old(offset))
    {
      var toCopy := Min(bytes, |buffer| - offset);
      data := buffer[offset..offset + toCopy];
      offset := offset + toCopy;
    }

    /** What is behind the offset is moved, not written over. */
    method Write(data: Text)
      requires Valid()
      modifies this
      ensures Valid() && offset == old(offset) + |data|
      ensures buffer == old(buffer[..offset]) + data + old(buffer[offset..])
    {
      if |buffer| == offset {
        buffer := buffer + data;
      } else {
        buffer := buffer[..offset] + data + buffer[offset..];
      }
      offset := offset + |data|;
    }

    method WriteInt(val: nat)
      requires Valid() && val < 2 * SIGN
      modifies this
      ensures Valid() && offset == old(offset) + |IntBytes(val)|
      ensures buffer == old(buffer[..offset]) + IntBytes(val) + old(buffer[offset..])
    {
      ghost var groups := FourGroups(val);
      var digit: Text := FourGroups(val) + [val % 128];
      var start: nat := 0;
      GroupsStripped(val);
      while digit[start] == 128
        invariant start <= 4
        invariant Shortened(groups[start..]) == Shortened(groups)
        decreases 5 - start
      {
        assert groups[start..][1..] == groups[start + 1..];
        start := start + 1;
      }
      assert start < 4 ==> groups[start..][0] == digit[start];
      assert Shortened(groups[start..]) == groups[start..];
      assert digit[start..] == groups[start..] + [val % 128];
      assert groups[start..] + [val % 128] == IntBytes(val);
      Write(digit[start..]);
    }

    /** The value, or nothing for an exception: nothing left to read, or a negative number. */
    method ReadInt() returns (r: Option<nat>)
      requires Valid()
      modifies this`offset
      ensures Valid()
      ensures old(offset) == |buffer| ==> r == None && offset == old(offset)
      ensures old(offset) < |buffer| ==>
        var (value, end) := IntRead(buffer, old(offset), 0);
        offset == end && r == if value < SIGN then Some(value) else None
    {
      if offset >= |buffer| {
        return None;
      }
      var at: nat, value: nat, highBitSet := offset, 0, true;
      ghost var all := IntRead(buffer, offset, 0);
      while highBitSet && at < |buffer|
        invariant offset <= at <= |buffer| && ((highBitSet && at < |buffer|) || at > offset)
        invariant if highBitSet && at < |buffer| then IntRead(buffer, at, value) == all else (value, at) == all
        decreases |buffer| - at
      {
        var tmp := buffer[at];
        at := at + 1;
        highBitSet := tmp >= 128;
        value := value * 128 % (2 * SIGN) + tmp % 128;
      }
      offset := at;
      r := if value < SIGN then Some(value) else None;
    }

    method WriteString(data: Text)
      requires Valid() && |data| < SIGN
      modifies this
      ensures Valid() && offset == old(offset) + |StringBytes(data)|
      ensures buffer == old(buffer[..offset]) + StringBytes(data) + old(buffer[offset..])
    {
      ghost var before, behind := buffer[..offset], buffer[offset..];
      WriteInt(|data|);
      assert buffer[..offset] == before + IntBytes(|data|) && buffer[offset..] == behind;
      Write(data);
      assert before + IntBytes(|data|) + data + behind == before + StringBytes(data) + behind;
    }

    /** A whole string, or nothing for an exception: no length, or not as many bytes as that. */
    method ReadString() returns (r: Option<Text>)
      requires Valid()
      modifies this`offset
      ensures Valid()
      ensures match StringRead(buffer, old(offset))
        case None => r == None
        case Some(s) => r == Some(s.0) && offset == s.1
    {
      var length := ReadInt();
      if length == None {
        return None;
      }
      var data := Read(length.value);
      if |data| != length.value {
        return None;
      }
      r := Some(data);
    }
  }

  /** The first four digits of `writeInt`, needed or not; the last one is the last seven bits. */
  function FourGroups(val: nat): (s: Text)
    ensures |s| == 4
  {
    [128 + val / 0x1000_0000 % 128, 128 + val / 0x20_0000 % 128, 128 + val / 0x4000 % 128, 128 + val / 0x80 % 128]
  }

  lemma GroupsStripped(val: nat)
    requires val < 2 * SIGN
    ensures Shortened(FourGroups(val)) == Groups(val / 128)
  {
    hide Shortened, Groups, AllGroups, Power;
    StrippedAtFour(val);
    Quotients(val);
    FourAreAll(val / 128);
  }

  lemma StrippedAtFour(val: nat)
    requires val < 2 * SIGN
    ensures Shortened(AllGroups(val / 128, 4)) == Groups(val / 128)
  {
    hide Shortened, Groups, AllGroups;
    assert Power(1) == 128 && Power(2) == 0x4000 && Power(3) == 0x20_0000;
    StrippedGroups(val / 128, 4);
  }

  lemma Quotients(val: nat)
    ensures val / 128 / 128 == val / 0x4000
    ensures val / 0x4000 / 128 == val / 0x20_0000
    ensures val / 0x20_0000 / 128 == val / 0x1000_0000
  {
  }

  lemma FourAreAll(h: nat)
    ensures AllGroups(h, 4) ==
      [128 + h / 128 / 128 / 128 % 128, 128 + h / 128 / 128 % 128, 128 + h / 128 % 128, 128 + h % 128]
  {
    GroupsUpTo(h, 4);
    GroupsUpTo(h / 128, 3);
    GroupsUpTo(h / 128 / 128, 2);
    GroupsUpTo(h / 128 / 128 / 128, 1);
    hide AllGroups;
  }

  lemma GroupsUpTo(h: nat, k: nat)
    requires k > 0
    ensures AllGroups(h, k) == AllGroups(h / 128, k - 1) + [128 + h % 128]
  {
  }

  function StringBytes(data: Text): Text {
    IntBytes(|data|) + data
  }

  /** A whole string from `at` on, and where it ends. */
  function StringRead(buffer: Text, at: nat): Option<(Text, nat)> {
    if at >= |buffer| then None
    else
      var (length, from) := IntRead(buffer, at, 0);
      if length < SIGN && from + length <= |buffer| then Some((buffer[from..from + length], from + length)) else None
  }

  /** A string is read as it was written. */
  lemma StringRoundTrip(p: Text, data: Text, rest: Text)
    requires |data| < SIGN
    ensures StringRead(p + StringBytes(data) + rest, |p|) == Some((data, |p| + |StringBytes(data)|))
  {
    hide IntRead, IntBytes;
    var all := p + StringBytes(data) + rest;
    IntRoundTrip(p, |data|, data + rest);
    assert p + IntBytes(|data|) + (data + rest) == all;
    var from := |p| + |IntBytes(|data|)|;
    IntBytesSome(|data|);
    assert all[from..from + |data|] == data;
  }

  lemma IntBytesSome(v: nat)
    ensures IntBytes(v) != []
  {
  }

  // ----- The variables --------------------------------------------------------------------------

  datatype Entry = Entry(key: Text, value: Text)

  predicate SmallEntry(e: Entry) {
    |e.key| < SIGN && |e.value| < SIGN
  }

  function EntriesBytes(es: seq<Entry>): Text {
    if es == [] then []
    else EntriesBytes(es[..|es| - 1]) + StringBytes(es[|es| - 1].key) + StringBytes(es[|es| - 1].value)
  }

  function Serialized(es: seq<Entry>): Text {
    IntBytes(|es|) + EntriesBytes(es)
  }

  /** One variable with a short name and a short value, for example: the count, and each text behind
      its length. */
  lemma OneVariable(key: Text, value: Text)
    requires |key| < 128 && |value| < 128
    ensures Serialized([Entry(key, value)]) == [1] + [|key|] + key + [|value|] + value
  {
    hide IntBytes;
    OneByte(1);
    OneByte(|key|);
    OneByte(|value|);
    EntriesFirst(Entry(key, value), []);
    assert [Entry(key, value)] + [] == [Entry(key, value)];
    NoEntries();
    hide EntriesBytes;
  }

  lemma OneByte(v: nat)
    requires v < 128
    ensures IntBytes(v) == [v]
  {
  }

  function EntryRead(buffer: Text, at: nat): Option<(Entry, nat)> {
    match StringRead(buffer, at)
    case None => None
    case Some(key) =>
      match StringRead(buffer, key.1)
      case None => None
      case Some(value) => Some((Entry(key.0, value.0), value.1))
  }

  /** The variables, and the outcome, after up to `n` entries are read from `at` on. The first
      value of a key stays, and an empty key is refused. */
  function Loaded(vars: map<Text, Text>, buffer: Text, at: nat, n: nat): (map<Text, Text>, Option<bool>)
    decreases n
  {
    if n == 0 then (vars, Some(true))
    else
      match EntryRead(buffer, at)
      case None => (vars, None)
      case Some(e) =>
        if e.0.key == [] then (vars, Some(false)) else Loaded(WithFirst(vars, e.0), buffer, e.1, n - 1)
  }

  function LoadedFrom(vars: map<Text, Text>, buffer: Text): (map<Text, Text>, Option<bool>) {
    if buffer == [] then (vars, None)
    else
      var (n, at) := IntRead(buffer, 0, 0);
      if n < SIGN then Loaded(vars, buffer, at, n) else (vars, None)
  }

  /** Loading only adds variables: those that there are keep their values. */
  lemma {:induction false} LoadedKeeps(vars: map<Text, Text>, buffer: Text, at: nat, n: nat)
    ensures var r := Loaded(vars, buffer, at, n).0;
      forall key :: key in vars ==> key in r && r[key] == vars[key]
    decreases n
  {
    hide EntryRead;
    if n > 0 {
      match EntryRead(buffer, at)
      case None =>
      case Some(e) =>
        var next := WithFirst(vars, e.0);
        assert forall key :: key in vars ==> key in next && next[key] == vars[key];
        if e.0.key != [] { LoadedKeeps(next, buffer, e.1, n - 1); }
    }
  }

  lemma EntryRoundTrip(p: Text, e: Entry, rest: Text)
    requires SmallEntry(e)
    ensures var coded := StringBytes(e.key) + StringBytes(e.value);
      EntryRead(p + coded + rest, |p|) == Some((e, |p| + |coded|))
  {
    hide StringRead, StringBytes;
    var key, value := StringBytes(e.key), StringBytes(e.value);
    StringRoundTrip(p, e.key, value + rest);
    StringRoundTrip(p + key, e.value, rest);
    assert p + key + (value + rest) == p + (key + value) + rest;
    assert (p + key) + value + rest == p + (key + value) + rest;
  }

  lemma {:induction false} EntriesFirst(e: Entry, es: seq<Entry>)
    ensures EntriesBytes([e] + es) == StringBytes(e.key) + StringBytes(e.value) + EntriesBytes(es)
    decreases |es|
  {
    hide StringBytes;
    if es == [] {
      assert [e] + es == [e] && [e][..0] == [];
      assert EntriesBytes([e]) == EntriesBytes([]) + StringBytes(e.key) + StringBytes(e.value);
    } else {
      var n := |es| - 1;
      assert ([e] + es)[..n + 1] == [e] + es[..n];
      EntriesFirst(e, es[..n]);
    }
  }

  /** Entries are read one after the other as they were written. */
  lemma {:induction false} EntriesBack(vars: map<Text, Text>, p: Text, es: seq<Entry>)
    requires forall k :: 0 <= k < |es| ==> SmallEntry(es[k])
    ensures var r := Inserted(vars, es);
      Loaded(vars, p + EntriesBytes(es), |p|, |es|) == (r.0, Some(r.1))
    decreases |es|
  {
    hide EntryRead, StringBytes, SmallEntry;
    if es != [] {
      var e, rest := es[0], es[1..];
      var coded := StringBytes(e.key) + StringBytes(e.value);
      assert es == [e] + rest;
      EntriesFirst(e, rest);
      EntryRoundTrip(p, e, EntriesBytes(rest));
      assert p + EntriesBytes(es) == p + coded + EntriesBytes(rest);
      if e.key != [] {
        EntriesBack(WithFirst(vars, e), p + coded, rest);
      }
    }
  }

  /** What is serialized can be read back. */
  lemma AllBack(vars: map<Text, Text>, es: seq<Entry>)
    requires |es| < SIGN && forall k :: 0 <= k < |es| ==> SmallEntry(es[k])
    ensures var r := Inserted(vars, es); LoadedFrom(vars, Serialized(es)) == (r.0, Some(r.1))
  {
    hide IntRead, IntBytes, Loaded, EntriesBytes, SmallEntry, Inserted;
    IntBytesSome(|es|);
    IntRoundTrip([], |es|, EntriesBytes(es));
    assert [] + IntBytes(|es|) + EntriesBytes(es) == Serialized(es);
    EntriesBack(vars, IntBytes(|es|), es);
  }

  // ----- A buffer that has been cut ---------------------------------------------------------------

  /** A cut through the groups leaves the groups of a smaller number. */
  lemma {:induction false} GroupsCut(h: nat, k: nat) returns (less: nat)
    requires 0 < k <= |Groups(h)|
    ensures 0 < less <= h && Groups(h)[..k] == Groups(less)
    decreases h
  {
    GroupsIs(h);
    GroupsSome(h);
    hide Groups;
    if k == |Groups(h)| {
      less := h;
      assert Groups(h)[..k] == Groups(h);
    } else {
      less := GroupsCut(h / 128, k);
      assert Groups(h)[..k] == Groups(h / 128)[..k];
    }
  }

  /** At the end of the buffer a number is taken as far as it goes. */
  lemma GroupsOnly(p: Text, h: nat)
    requires 0 < h < SIGN / 64
    ensures IntRead(p + Groups(h), |p|, 0) == (h, |p| + |Groups(h)|)
  {
    GroupsIs(h);
    hide IntRead, Groups;
    var last := [128 + h % 128];
    var all := p + Groups(h);
    assert p + Groups(h / 128) + last == all;
    GroupsRead(p, h / 128, last);
    var at := |p| + |Groups(h / 128)|;
    assert all[at] == 128 + h % 128 && at + 1 == |all|;
    IntStep(all, at, h / 128);
    Rejoined(h);
  }

  /** A string that is cut anywhere cannot be read. */
  lemma StringCut(p: Text, data: Text, k: nat)
    requires |data| < SIGN && k < |StringBytes(data)|
    ensures StringRead(p + StringBytes(data)[..k], |p|) == None
  {
    hide IntRead, Groups;
    var all, h := p + StringBytes(data)[..k], |data| / 128;
    if 0 < k <= |Groups(h)| {
      assert StringBytes(data)[..k] == Groups(h)[..k];
      var less := GroupsCut(h, k);
      GroupsOnly(p, less);
    } else if k > 0 {
      var rest := data[..k - |IntBytes(|data|)|];
      assert StringBytes(data)[..k] == IntBytes(|data|) + rest;
      IntRoundTrip(p, |data|, rest);
      assert p + IntBytes(|data|) + rest == all;
    }
  }

  lemma EntryCut(p: Text, e: Entry, k: nat)
    requires SmallEntry(e) && k < |StringBytes(e.key) + StringBytes(e.value)|
    ensures EntryRead(p + (StringBytes(e.key) + StringBytes(e.value))[..k], |p|) == None
  {
    hide StringRead, StringBytes;
    var key, value := StringBytes(e.key), StringBytes(e.value);
    if k < |key| {
      assert (key + value)[..k] == key[..k];
      StringCut(p, e.key, k);
    } else {
      var rest := value[..k - |key|];
      assert (key + value)[..k] == key + rest;
      StringRoundTrip(p, e.key, rest);
      assert p + key + rest == p + (key + rest);
      StringCut(p + key, e.value, k - |key|);
    }
  }

  lemma {:induction false} EntriesCut(vars: map<Text, Text>, p: Text, es: seq<Entry>, k: nat)
    requires forall j :: 0 <= j < |es| ==> SmallEntry(es[j]) && es[j].key != []
    requires k < |EntriesBytes(es)|
    ensures Loaded(vars, p + EntriesBytes(es)[..k], |p|, |es|).1 == None
    decreases |es|
  {
    hide EntryRead, StringBytes, SmallEntry;
    var e, rest := es[0], es[1..];
    var coded := StringBytes(e.key) + StringBytes(e.value);
    assert es == [e] + rest;
    EntriesFirst(e, rest);
    if k < |coded| {
      assert EntriesBytes(es)[..k] == coded[..k];
      EntryCut(p, e, k);
    } else {
      var behind := EntriesBytes(rest)[..k - |coded|];
      assert p + EntriesBytes(es)[..k] == p + coded + behind;
      EntryRoundTrip(p, e, behind);
      EntriesCut(WithFirst(vars, e), p + coded, rest, k - |coded|);
    }
  }

  /** No saved buffer that has lost its end is taken for a whole one: reading it ends in an
      exception, wherever it was cut. */
  lemma AllCut(vars: map<Text, Text>, es: seq<Entry>, k: nat)
    requires |es| < SIGN && forall j :: 0 <= j < |es| ==> SmallEntry(es[j]) && es[j].key != []
    requires k < |Serialized(es)|
    ensures LoadedFrom(vars, Serialized(es)[..k]).1 == None
  {
    hide IntRead, Groups, EntriesBytes, SmallEntry, EntryRead;
    var count, h, all := IntBytes(|es|), |es| / 128, Serialized(es)[..k];
    if 0 < k <= |Groups(h)| {
      assert all == Groups(h)[..k];
      var less := GroupsCut(h, k);
      GroupsOnly([], less);
      assert [] + Groups(less) == all;
      NothingLeft(all, |all|);
    } else if k > 0 {
      var rest := EntriesBytes(es)[..k - |count|];
      assert all == count + rest && [] + count + rest == all;
      IntRoundTrip([], |es|, rest);
      EntriesCut(vars, count, es, k - |count|);
    }
  }

  lemma NothingLeft(buffer: Text, at: nat)
    requires at >= |buffer|
    ensures EntryRead(buffer, at) == None
  {
  }

  /** The variables after some entries are put in; an empty key stops that. */
  function Inserted(vars: map<Text, Text>, es: seq<Entry>): (map<Text, Text>, bool)
    decreases |es|
  {
    if es == [] then (vars, true)
    else if es[0].key == [] then (vars, false)
    else Inserted(WithFirst(vars, es[0]), es[1..])
  }

  /** The first value of a key stays. */
  function WithFirst(vars: map<Text, Text>, e: Entry): map<Text, Text> {
    if e.key in vars then vars else vars[e.key := e.value]
  }

  /** Some entries, and those that are in already, are the variables. */
  ghost predicate Lists(started: map<Text, Text>, es: seq<Entry>, vars: map<Text, Text>) {
    && (forall k :: 0 <= k < |es| ==> es[k].key in vars && vars[es[k].key] == es[k].value)
    && (forall key :: key in started ==> key in vars && vars[key] == started[key])
    && (forall key :: key in vars ==> key in started || exists k :: 0 <= k < |es| && es[k].key == key)
  }

  lemma {:induction false} InsertedAll(started: map<Text, Text>, es: seq<Entry>, vars: map<Text, Text>)
    requires Lists(started, es, vars)
    ensures var r := Inserted(started, es);
      && (r.1 <==> forall k :: 0 <= k < |es| ==> es[k].key != [])
      && (r.1 ==> r.0 == vars)
    decreases |es|
  {
    if es == [] {
      assert started.Keys == vars.Keys;
    } else if es[0].key != [] {
      var next := WithFirst(started, es[0]);
      assert Lists(next, es[1..], vars) by {
        forall key | key in vars && key !in next ensures exists k :: 0 <= k < |es[1..]| && es[1..][k].key == key {
          var k :| 0 <= k < |es| && es[k].key == key;
          assert es[1..][k - 1].key == key;
        }
      }
      InsertedAll(next, es[1..], vars);
      assert forall k :: 0 < k < |es| ==> es[k] == es[1..][k - 1];
    }
  }

  lemma NoEntries()
    ensures EntriesBytes([]) == []
  {
  }

  lemma ListJoined(a: Text, b: Text, c: Text, d: Text)
    ensures a + b + c + d == a + (b + c + d)
  {
  }

  lemma SerializedIs(es: seq<Entry>)
    ensures Serialized(es) == IntBytes(|es|) + EntriesBytes(es)
  {
  }

  /** The order of std::string: that of the first bytes that differ. */
  predicate AtMost(a: Text, b: Text) {
    a == [] || (b != [] && (a[0] < b[0] || (a[0] == b[0] && AtMost(a[1..], b[1..]))))
  }

  /** The texts first differ in byte `k`, and that is lower in the first one. */
  predicate LowerAt(a: Text, b: Text, k: nat) {
    k < |a| && k < |b| && a[..k] == b[..k] && a[k] < b[k]
  }

  /** That is: the first text is the start of the second, or has the lower byte where they first
      differ. */
  lemma {:induction false} AtMostIs(a: Text, b: Text)
    ensures AtMost(a, b) <==> a <= b || exists k: nat :: LowerAt(a, b, k)
    decreases |a|
  {
    if a != [] && b != [] {
      StartsSame(a, b);
      AtMostIs(a[1..], b[1..]);
      hide LowerAt;
      if k: nat :| LowerAt(a, b, k) {
        LowerNext(a, b, k);
        assert a[0] == b[0] ==> k > 0 && LowerAt(a[1..], b[1..], k - 1);
      }
      if k: nat :| LowerAt(a[1..], b[1..], k) {
        LowerNext(a, b, k + 1);
      }
      LowerNext(a, b, 0);
    } else {
      assert forall k: nat :: !LowerAt(a, b, k);
    }
  }

  lemma LowerNext(a: Text, b: Text, k: nat)
    requires a != [] && b != []
    ensures LowerAt(a, b, k) <==>
      if k == 0 then a[0] < b[0] else a[0] == b[0] && LowerAt(a[1..], b[1..], k - 1)
  {
    if k > 0 && k < |a| && k < |b| {
      assert a[..k] == [a[0]] + a[1..][..k - 1] && b[..k] == [b[0]] + b[1..][..k - 1];
      assert a[..k][0] == a[0] && b[..k][0] == b[0];
      assert a[..k][1..] == a[1..][..k - 1] && b[..k][1..] == b[1..][..k - 1];
    }
  }

  lemma StartsSame(a: Text, b: Text)
    requires a != [] && b != []
    ensures a <= b <==> a[0] == b[0] && a[1..] <= b[1..]
  {
    assert a == [a[0]] + a[1..] && b == [b[0]] + b[1..];
  }

  lemma {:induction false} AtMostOrders(a: Text, b: Text, c: Text)
    ensures AtMost(a, b) || AtMost(b, a)
    ensures AtMost(a, b) && AtMost(b, c) ==> AtMost(a, c)
    ensures AtMost(a, b) && AtMost(b, a) ==> a == b
    decreases |a|
  {
    if a != [] && b != [] {
      AtMostOrders(a[1..], b[1..], if c == [] then [] else c[1..]);
      assert a == [a[0]] + a[1..] && b == [b[0]] + b[1..];
    }
  }

  predicate Least(key: Text, keys: set<Text>) {
    key in keys && forall other :: other in keys ==> AtMost(key, other)
  }

  lemma {:induction false} HasLeast(keys: set<Text>) returns (key: Text)
    requires keys != {}
    ensures Least(key, keys)
    decreases |keys|
  {
    hide AtMost;
    var first :| first in keys;
    var rest := keys - {first};
    AtMostOrders(first, first, first);
    key := first;
    if rest == {} {
      assert keys == {first};
    } else {
      var least := HasLeast(rest);
      AtMostOrders(first, least, least);
      AtMostOrders(least, first, first);
      if AtMost(least, first) {
        key := least;
      }
      forall other | other in keys ensures AtMost(key, other) {
        AtMostOrders(first, least, other);
        assert other == first || other in rest;
      }
    }
  }

  /** Strictly in the order of the keys. */
  predicate InOrder(es: seq<Entry>) {
    forall i, j :: 0 <= i < j < |es| ==> AtMost(es[i].key, es[j].key) && es[i].key != es[j].key
  }

  class ConfigReader {
    var vars: map<Text, Text>

    constructor ()
      ensures vars == map[]
    {
      vars := map[];
    }

    /** The sizes fit the integers of the format. */
    ghost predicate Small()
      reads this
    {
      |vars| < SIGN && forall key :: key in vars ==> SmallEntry(Entry(key, vars[key]))
    }

    lemma SmallCount()
      requires Small()
      ensures |vars| < SIGN
    {
    }

    /** The variables but those in `todo` are listed. */
    ghost predicate Listed(es: seq<Entry>, todo: set<Text>)
      reads this
    {
      && todo <= vars.Keys && |es| + |todo| == |vars|
      && (forall k :: 0 <= k < |es| ==> es[k].key in vars && vars[es[k].key] == es[k].value && SmallEntry(es[k]))
      && (forall key :: key in vars ==> key in todo || exists k :: 0 <= k < |es| && es[k].key == key)
    }

    lemma OneMoreListed(es: seq<Entry>, todo: set<Text>, key: Text)
      requires Small() && Listed(es, todo) && key in todo
      ensures key in vars && SmallEntry(Entry(key, vars[key]))
      ensures var more := es + [Entry(key, vars[key])];
        && Listed(more, todo - {key})
        && EntriesBytes(more) == EntriesBytes(es) + StringBytes(key) + StringBytes(vars[key])
    {
      hide StringBytes, SmallEntry;
      var e := Entry(key, vars[key]);
      var more := es + [e];
      assert more[..|es|] == es && more[|es|].key == key;
      assert forall k :: 0 <= k < |es| ==> more[k] == es[k];
    }

    lemma NothingListed()
      ensures Listed([], vars.Keys)
    {
    }

    lemma AllListed(es: seq<Entry>)
      requires Listed(es, {})
      ensures Lists(map[], es, vars) && |es| == |vars| && forall k :: 0 <= k < |es| ==> SmallEntry(es[k])
    {
    }

    lemma SmallString(key: Text)
      requires SmallEntry(Entry(key, if key in vars then vars[key] else []))
      ensures |key| < SIGN && (key in vars ==> |vars[key]| < SIGN)
    {
    }

    /** The keys that are listed come before those that are not. */
    ghost predicate Sorted(es: seq<Entry>, todo: set<Text>) {
      && InOrder(es)
      && (forall k, key :: 0 <= k < |es| && key in todo ==> AtMost(es[k].key, key) && es[k].key != key)
    }

    lemma OneMoreSorted(es: seq<Entry>, todo: set<Text>, e: Entry)
      requires Sorted(es, todo) && Least(e.key, todo)
      ensures Sorted(es + [e], todo - {e.key})
    {
      hide AtMost;
    }

    lemma NothingSorted(todo: set<Text>)
      ensures Sorted([], todo)
    {
    }

    lemma AllSorted(es: seq<Entry>)
      requires Sorted(es, {})
      ensures InOrder(es)
    {
    }

    lemma LeastIn(key: Text, todo: set<Text>)
      requires Least(key, todo)
      ensures key in todo
    {
    }

    /** The number of variables, and then all of them in the order of their keys. */
    method ToVar() returns (out: ConfigVar, ghost es: seq<Entry>)
      requires Small()
      ensures fresh(out) && out.Valid() && out.buffer == Serialized(es)
      ensures Lists(map[], es, vars) && |es| == |vars| && InOrder(es)
      ensures forall k :: 0 <= k < |es| ==> SmallEntry(es[k])
    {
      hide *;
      SmallCount();
      out := new ConfigVar([]);
      out.WriteInt(|vars|);
      es := [];
      var todo := vars.Keys;
      NothingListed();
      NothingSorted(todo);
      NoEntries();
      while todo != {}
        invariant out.Valid() && out.offset == |out.buffer| && fresh(out)
        invariant out.buffer == IntBytes(|vars|) + EntriesBytes(es)
        invariant todo <= vars.Keys && Listed(es, todo) && Sorted(es, todo)
        decreases |todo|
      {
        ghost var least := HasLeast(todo);
        var key :| Least(key, todo);
        LeastIn(key, todo);
        OneMoreListed(es, todo, key);
        OneMoreSorted(es, todo, Entry(key, vars[key]));
        SmallString(key);
        ghost var so, first, second := out.buffer, StringBytes(key), StringBytes(vars[key]);
        out.WriteString(key);
        out.WriteString(vars[key]);
        assert out.buffer == so + first + second;
        ListJoined(IntBytes(|vars|), EntriesBytes(es), first, second);
        es := es + [Entry(key, vars[key])];
        todo := todo - {key};
      }
      AllListed(es);
      AllSorted(es);
      SerializedIs(es);
    }

    /** Whether the variables have been read, or nothing for an exception. What has been read
        before a failure stays. */
    method LoadFromVar(input: ConfigVar) returns (r: Option<bool>)
      requires input.Valid()
      modifies this, input`offset
      ensures (vars, r) == LoadedFrom(old(vars), input.buffer)
    {
      hide IntRead, EntryRead;
      input.ResetOffset();
      var numEntries := input.ReadInt();
      if numEntries == None {
        return None;
      }
      var i := 0;
      while i < numEntries.value
        invariant i <= numEntries.value && input.Valid()
        invariant Loaded(vars, input.buffer, input.offset, numEntries.value - i) == LoadedFrom(old(vars), input.buffer)
        decreases numEntries.value - i
      {
        EntryIs(input.buffer, input.offset);
        var key := input.ReadString();
        if key == None {
          return None;
        }
        var value := input.ReadString();
        if value == None {
          return None;
        }
        if key.value == [] {
          return Some(false);
        }
        if key.value !in vars {
          vars := vars[key.value := value.value];
        }
        i := i + 1;
      }
      r := Some(true);
    }
  }

  lemma EntryIs(buffer: Text, at: nat)
    ensures EntryRead(buffer, at) ==
      match StringRead(buffer, at)
      case None => None
      case Some(key) =>
        match StringRead(buffer, key.1)
        case None => None
        case Some(value) => Some((Entry(key.0, value.0), value.1))
  {
  }

  /** Variables that are saved and loaded again are the same, exactly if none of their names is
      empty; otherwise the file is refused. */
  method SaveAndLoad(reader: ConfigReader) returns (copy: ConfigReader, ok: bool)
    requires reader.Small()
    ensures ok <==> [] !in reader.vars
    ensures ok ==> copy.vars == reader.vars
  {
    hide *;
    reader.SmallCount();
    var out, es := reader.ToVar();
    AllBack(map[], es);
    copy := new ConfigReader();
    var input := new ConfigVar([]);
    input.Write(out.buffer);
    assert input.buffer == out.buffer;
    InsertedAll(map[], es, reader.vars);
    NoEmptyName(es, reader.vars);
    var r := copy.LoadFromVar(input);
    ok := r == Some(true);
  }

  lemma NoEmptyName(es: seq<Entry>, vars: map<Text, Text>)
    requires Lists(map[], es, vars)
    ensures [] !in vars <==> forall k :: 0 <= k < |es| ==> es[k].key != []
  {
  }
}
