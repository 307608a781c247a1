/** NameIO.cpp: the coding of paths, name by name. */
module NamePath {
  import opened Bytes
  import opened Options
  import opened CipherModel
  import opened Names
  import opened ByteValues
  import opened Base64

  datatype Direction = Encode | Decode

  datatype Coder =
    | InBlocks(blocks: BlockNameIO)
    | AsStreams(streams: StreamNameIO)
    | AsIs
  {
    ghost predicate Valid() {
      match this
      case InBlocks(b) => b.Valid()
      case AsStreams(s) => s.cipher.Lawful()
      case AsIs => true
    }

    predicate Usable() {
      InBlocks? ==> 0 < blocks.cipher.blockSize < 128
    }

    function MaxLength(d: Direction, n: nat): int
      requires Usable()
    {
      match this
      case InBlocks(b) => if d.Encode? then b.MaxEncodedNameLen(n) else b.MaxDecodedNameLen(n)
      case AsStreams(s) => if d.Encode? then s.MaxEncodedNameLen(n) else s.MaxDecodedNameLen(n)
      case AsIs => n
    }

    function Code(d: Direction, name: seq<byte>, iv: Option<bv64>): Result<Coded>
      requires Usable()
    {
      match this
      case InBlocks(b) => if d.Encode? then Ok(b.Encode(name, iv)) else b.Decode(name, iv)
      case AsStreams(s) => if d.Encode? then Ok(s.Encode(name, iv)) else s.Decode(name, iv)
      case AsIs => Ok(Coded(name, iv))
    }

    method CodeName(d: Direction, name: seq<byte>, iv: Option<bv64>) returns (r: Result<Coded>)
      requires Usable() && Valid() && name != []
      ensures r == Code(d, name, iv)
    {
      match this {
        case InBlocks(b) =>
          if d.Encode? {
            var c := b.EncodeName(name, iv);
            r := Ok(c);
          } else {
            r := b.DecodeName(name, iv);
          }
        case AsStreams(s) =>
          if d.Encode? {
            var c := s.EncodeName(name, iv);
            r := Ok(c);
          } else {
            r := s.DecodeName(name, iv);
          }
        case AsIs => r := Ok(Coded(name, iv));
      }
    }
  }

  // ----- The parts of a path --------------------------------------------------------------------

  predicate HasNo(s: seq<byte>, b: byte) {
    forall k :: 0 <= k < |s| ==> s[k] != b
  }

  /** The length of the first name. */
  function NameLen(path: seq<byte>): (n: nat)
    ensures n <= |path| && HasNo(path[..n], SLASH)
    ensures n < |path| ==> path[n] == SLASH
  {
    if path == [] || path[0] == SLASH then 0 else 1 + NameLen(path[1..])
  }

  /** "." and ".." are copied as they are. */
  predicate IsDotFile(name: seq<byte>)
    requires name != []
  {
    name[0] == DOT && name[|name| - 1] == DOT && |name| <= 2
  }

  lemma DotFileIs(name: seq<byte>)
    requires name != []
    ensures IsDotFile(name) <==> name == [46] || name == [46, 46]
  {
  }

  /** The part of a buffer that counts as a string. */
  function CString(s: seq<byte>): seq<byte> {
    if s == [] || s[0] == 0 then [] else [s[0]] + CString(s[1..])
  }

  lemma {:induction false} CStringSame(s: seq<byte>)
    requires HasNo(s, 0)
    ensures CString(s) == s
  {
    if s != [] {
      assert forall k :: 0 <= k < |s[1..]| ==> s[1..][k] == s[k + 1];
      CStringSame(s[1..]);
    }
  }

  /** It ends at the first zero byte. */
  lemma {:induction false} CStringIs(s: seq<byte>) returns (n: nat)
    ensures n <= |s| && CString(s) == s[..n]
    ensures (forall k :: 0 <= k < n ==> s[k] != 0) && (n < |s| ==> s[n] == 0)
  {
    n := 0;
    if s != [] && s[0] != 0 {
      n := CStringIs(s[1..]);
      assert forall k :: 0 < k <= n ==> s[k] == s[1..][k - 1];
      assert s[..n + 1] == [s[0]] + s[1..][..n];
      n := n + 1;
    }
  }

  /** The end of a path: nothing, or another name behind a slash. */
  predicate AtSlash(path: seq<byte>) {
    path == [] || path[0] == SLASH
  }

  lemma {:induction false} NameLenOf(name: seq<byte>, rest: seq<byte>)
    requires HasNo(name, SLASH) && AtSlash(rest)
    ensures NameLen(name + rest) == |name|
  {
    if name == [] {
      assert name + rest == rest;
    } else {
      assert (name + rest)[1..] == name[1..] + rest;
      assert forall k :: 0 <= k < |name[1..]| ==> name[1..][k] == name[k + 1];
      NameLenOf(name[1..], rest);
    }
  }

  // ----- Recoding -------------------------------------------------------------------------------

  function Prefixed(s: seq<byte>, r: Result<Coded>): Result<Coded> {
    match r
    case Err(_) => r
    case Ok(c) => Ok(Coded(s + c.name, c.iv))
  }

  /** What one name becomes, and the IV after it. */
  function RecodeName(coder: Coder, d: Direction, name: seq<byte>, iv: Option<bv64>): Result<Coded>
    requires coder.Usable() && name != []
  {
    if IsDotFile(name) then Ok(Coded(name, iv))
    else if coder.MaxLength(d, |name|) <= 0 then Err(TooSmall)
    else
      match coder.Code(d, name, iv)
      case Err(e) => Err(e)
      case Ok(c) => Ok(Coded(CString(c.name), c.iv))
  }

  /** What is appended for a path, when something is there already if `started`. */
  function Recode(coder: Coder, d: Direction, path: seq<byte>, iv: Option<bv64>, started: bool): Result<Coded>
    requires coder.Usable()
    decreases |path|
  {
    if path == [] then Ok(Coded([], iv))
    else if path[0] == SLASH then
      Prefixed(if started then [SLASH] else [], Recode(coder, d, path[1..], iv, started))
    else
      var n := NameLen(path);
      match RecodeName(coder, d, path[..n], iv)
      case Err(e) => Err(e)
      case Ok(c) => Prefixed(c.name, Recode(coder, d, path[n..], c.iv, started || c.name != []))
  }

  method RecodePath(coder: Coder, d: Direction, path: seq<byte>, iv0: Option<bv64>) returns (r: Result<Coded>)
    requires coder.Usable() && coder.Valid()
    ensures r == Recode(coder, d, path, iv0, false)
  {
    hide *;
    var output, iv, rest := [], iv0, path;
    NoPrefix(Recode(coder, d, path, iv0, false));
    while rest != []
      invariant Prefixed(output, Recode(coder, d, rest, iv, output != [])) == Recode(coder, d, path, iv0, false)
      decreases |rest|
    {
      if rest[0] == SLASH {
        var slash := if output != [] then [SLASH] else [];
        AtASlash(coder, d, rest, iv, output != []);
        Associate(output, slash, Recode(coder, d, rest[1..], iv, output != []));
        output := output + slash;
        rest := rest[1..];
      } else {
        var len := NameLen(rest);
        NameStarts(rest);
        var coded := RecodeFirst(coder, d, rest[..len], iv);
        AtAName(coder, d, rest, iv, output != []);
        match coded {
          case Err(e) =>
            Failed(output, e);
            return Err(e);
          case Ok(c) =>
            Associate(output, c.name, Recode(coder, d, rest[len..], c.iv, output != [] || c.name != []));
            output := output + c.name;
            iv := c.iv;
        }
        rest := rest[len..];
      }
    }
    NothingLeft(coder, d, iv, output);
    r := Ok(Coded(output, iv));
  }

  /** The name is copied or coded, and what is appended ends at the first zero byte. */
  method RecodeFirst(coder: Coder, d: Direction, name: seq<byte>, iv: Option<bv64>) returns (r: Result<Coded>)
    requires coder.Usable() && coder.Valid() && name != []
    ensures r == RecodeName(coder, d, name, iv)
  {
    hide Coder.Code, Coder.MaxLength, Coder.Valid, CString;
    var len := |name|;
    if name[0] == DOT && name[len - 1] == DOT && len <= 2 {
      return Ok(Coded(name, iv));
    }
    if coder.MaxLength(d, len) <= 0 {
      return Err(TooSmall);
    }
    r := coder.CodeName(d, name, iv);
    if r.Ok? { r := Ok(Coded(CString(r.value.name), r.value.iv)); }
  }

  lemma AtASlash(coder: Coder, d: Direction, path: seq<byte>, iv: Option<bv64>, started: bool)
    requires coder.Usable() && path != [] && path[0] == SLASH
    ensures Recode(coder, d, path, iv, started) ==
      Prefixed(if started then [SLASH] else [], Recode(coder, d, path[1..], iv, started))
  {
  }

  lemma AtAName(coder: Coder, d: Direction, path: seq<byte>, iv: Option<bv64>, started: bool)
    requires coder.Usable() && path != [] && path[0] != SLASH && NameLen(path) > 0
    ensures var n := NameLen(path);
      Recode(coder, d, path, iv, started) ==
        match RecodeName(coder, d, path[..n], iv)
        case Err(e) => Err(e)
        case Ok(c) => Prefixed(c.name, Recode(coder, d, path[n..], c.iv, started || c.name != []))
  {
    hide RecodeName, NameLen;
  }

  lemma Failed(output: seq<byte>, e: NameError)
    ensures Prefixed(output, Err(e)) == Err(e)
  {
  }

  lemma NothingLeft(coder: Coder, d: Direction, iv: Option<bv64>, output: seq<byte>)
    requires coder.Usable()
    ensures Prefixed(output, Recode(coder, d, [], iv, output != [])) == Ok(Coded(output, iv))
  {
    assert output + [] == output;
  }

  lemma NameStarts(path: seq<byte>)
    requires path != [] && path[0] != SLASH
    ensures NameLen(path) > 0
  {
  }

  lemma Associate(a: seq<byte>, b: seq<byte>, r: Result<Coded>)
    ensures Prefixed(a, Prefixed(b, r)) == Prefixed(a + b, r)
  {
    if r.Ok? { assert (a + b) + r.value.name == a + (b + r.value.name); }
  }

  lemma NoPrefix(r: Result<Coded>)
    ensures Prefixed([], r) == r
  {
    if r.Ok? { assert [] + r.value.name == r.value.name; }
  }

  // ----- What it means --------------------------------------------------------------------------

  /** A path is recoded part by part: the second part under the IV that the first one leaves. */
  lemma {:induction false} RecodeParts(coder: Coder, d: Direction, p: seq<byte>, q: seq<byte>, iv: Option<bv64>,
                                       started: bool)
    requires coder.Usable() && AtSlash(q)
    ensures Recode(coder, d, p + q, iv, started) ==
      (match Recode(coder, d, p, iv, started)
       case Err(e) => Err(e)
       case Ok(c) => Prefixed(c.name, Recode(coder, d, q, c.iv, started || c.name != [])))
    decreases |p|
  {
    hide RecodeName, NameLen;
    if p == [] {
      assert p + q == q;
      NoPrefix(Recode(coder, d, q, iv, started));
    } else if p[0] == SLASH {
      assert (p + q)[1..] == p[1..] + q;
      RecodeParts(coder, d, p[1..], q, iv, started);
      var s := if started then [SLASH] else [];
      var r := Recode(coder, d, p[1..], iv, started);
      if r.Ok? {
        Associate(s, r.value.name, Recode(coder, d, q, r.value.iv, started || r.value.name != []));
      }
    } else {
      var n := NameLen(p);
      NameStarts(p);
      FirstName(p, q);
      assert (p + q)[..n] == p[..n] && (p + q)[n..] == p[n..] + q;
      var c := RecodeName(coder, d, p[..n], iv);
      if c.Ok? {
        var st := started || c.value.name != [];
        RecodeParts(coder, d, p[n..], q, c.value.iv, st);
        var r := Recode(coder, d, p[n..], c.value.iv, st);
        if r.Ok? {
          Associate(c.value.name, r.value.name, Recode(coder, d, q, r.value.iv, st || r.value.name != []));
        }
      }
    }
  }

  lemma FirstName(p: seq<byte>, q: seq<byte>)
    requires p != [] && AtSlash(q)
    ensures NameLen(p + q) == NameLen(p)
  {
    var n := NameLen(p);
    assert p + q == p[..n] + (p[n..] + q);
    NameLenOf(p[..n], p[n..] + q);
  }

  /** A path without the slashes it starts with, unless something is before it. */
  function Stripped(path: seq<byte>, started: bool): seq<byte> {
    if !started && path != [] && path[0] == SLASH then Stripped(path[1..], started) else path
  }

  /** It is the end of the path that starts with its first other character. */
  lemma {:induction false} StrippedIs(path: seq<byte>) returns (n: nat)
    ensures n <= |path| && Stripped(path, false) == path[n..]
    ensures (forall k :: 0 <= k < n ==> path[k] == 47) && (n < |path| ==> path[n] != 47)
  {
    n := 0;
    if path != [] && path[0] == SLASH {
      n := StrippedIs(path[1..]);
      assert forall k :: 0 < k <= n ==> path[k] == path[1..][k - 1];
      n := n + 1;
    }
  }

  /** One name there and back. */
  lemma NameBack(coder: Coder, name: seq<byte>, iv: Option<bv64>)
    requires coder.Valid() && coder.Usable() && name != [] && HasNo(name, SLASH) && HasNo(name, 0)
    ensures var e := RecodeName(coder, Encode, name, iv);
      && e.Ok? && e.value.name != [] && HasNo(e.value.name, SLASH) && HasNo(e.value.name, 0)
      && RecodeName(coder, Decode, e.value.name, iv) == Ok(Coded(name, e.value.iv))
  {
    CStringSame(name);
    if !IsDotFile(name) && !coder.AsIs? {
      CodeBack(coder, name, iv);
      hide Coder.Code, Coder.MaxLength, Coder.Valid, CString;
      CStringSame(coder.Code(Encode, name, iv).value.name);
    }
  }

  lemma CodeBack(coder: Coder, name: seq<byte>, iv: Option<bv64>)
    requires coder.Valid() && coder.Usable() && name != [] && !coder.AsIs?
    ensures coder.MaxLength(Encode, |name|) > 0
    ensures var e := coder.Code(Encode, name, iv);
      && e.Ok? && e.value.name != [] && SafeName(e.value.name) && coder.MaxLength(Decode, |e.value.name|) > 0
      && coder.Code(Decode, e.value.name, iv) == Ok(Coded(name, e.value.iv))
  {
    hide BlockNameIO.Encode, BlockNameIO.Decode, StreamNameIO.Encode, StreamNameIO.Decode, BlockNameIO.Valid;
    hide BlockNameIO.MaxEncodedNameLen, BlockNameIO.MaxDecodedNameLen, Cipher.Lawful, SafeName;
    hide StreamNameIO.MaxEncodedNameLen, StreamNameIO.MaxDecodedNameLen;
    match coder {
      case InBlocks(b) => b.NameRoundTrip(name, iv);
      case AsStreams(s) => s.NameRoundTrip(name, iv);
    }
  }

  /** Decoding the encoding of a path gives the path back, without the slashes at its start, and
      leaves the same IV. */
  ghost predicate Returns(coder: Coder, path: seq<byte>, iv: Option<bv64>, started: bool)
    requires coder.Usable()
  {
    var e := Recode(coder, Encode, path, iv, started);
    && e.Ok? && HasNo(e.value.name, 0)
    && (started && AtSlash(path) ==> AtSlash(e.value.name))
    && Recode(coder, Decode, e.value.name, iv, started) == Ok(Coded(Stripped(path, started), e.value.iv))
  }

  lemma {:induction false} PathBack(coder: Coder, path: seq<byte>, iv: Option<bv64>, started: bool)
    requires coder.Valid() && coder.Usable() && HasNo(path, 0)
    ensures Returns(coder, path, iv, started)
    decreases |path|
  {
    hide RecodeName, NameLen, Coder.Valid, Returns, Recode;
    if path == [] {
      NothingBack(coder, iv, started);
    } else if path[0] == SLASH {
      PathBack(coder, path[1..], iv, started);
      SlashBack(coder, path[1..], iv, started);
      assert [SLASH] + path[1..] == path;
    } else {
      var n := NameLen(path);
      NameStarts(path);
      var name, rest := path[..n], path[n..];
      NameBack(coder, name, iv);
      PathBack(coder, rest, RecodeName(coder, Encode, name, iv).value.iv, true);
      FirstNameBack(coder, name, rest, iv, started);
      assert name + rest == path;
    }
  }

  lemma NothingBack(coder: Coder, iv: Option<bv64>, started: bool)
    requires coder.Usable()
    ensures Returns(coder, [], iv, started)
  {
  }

  lemma SlashBack(coder: Coder, rest: seq<byte>, iv: Option<bv64>, started: bool)
    requires coder.Usable() && Returns(coder, rest, iv, started)
    ensures Returns(coder, [SLASH] + rest, iv, started)
  {
    hide RecodeName, NameLen;
    var path := [SLASH] + rest;
    assert path[1..] == rest;
    var e := Recode(coder, Encode, rest, iv, started).value.name;
    if started {
      assert ([SLASH] + e)[1..] == e;
    } else {
      assert [] + e == e;
    }
  }

  lemma FirstNameBack(coder: Coder, name: seq<byte>, rest: seq<byte>, iv: Option<bv64>, started: bool)
    requires coder.Usable() && name != [] && HasNo(name, SLASH) && AtSlash(rest)
    requires var e := RecodeName(coder, Encode, name, iv);
      && e.Ok? && e.value.name != [] && HasNo(e.value.name, SLASH) && HasNo(e.value.name, 0)
      && RecodeName(coder, Decode, e.value.name, iv) == Ok(Coded(name, e.value.iv))
      && Returns(coder, rest, e.value.iv, true)
    ensures Returns(coder, name + rest, iv, started)
  {
    hide RecodeName, NameLen;
    var e := RecodeName(coder, Encode, name, iv).value;
    var r := Recode(coder, Encode, rest, e.iv, true).value;
    StrippedSame(rest, true);
    StrippedSame(name + rest, started);
    hide Recode, Stripped;
    NameFirst(coder, Encode, name, rest, iv, started);
    NameFirst(coder, Decode, e.name, r.name, iv, started);
  }

  lemma StrippedSame(path: seq<byte>, started: bool)
    requires started || path == [] || path[0] != SLASH
    ensures Stripped(path, started) == path
  {
  }

  /** A path that starts with a name. */
  lemma NameFirst(coder: Coder, d: Direction, name: seq<byte>, rest: seq<byte>, iv: Option<bv64>, started: bool)
    requires coder.Usable() && name != [] && HasNo(name, SLASH) && AtSlash(rest)
    ensures Recode(coder, d, name + rest, iv, started) ==
      (match RecodeName(coder, d, name, iv)
       case Err(e) => Err(e)
       case Ok(c) => Prefixed(c.name, Recode(coder, d, rest, c.iv, started || c.name != [])))
  {
    hide RecodeName, NameLen;
    NameLenOf(name, rest);
    assert (name + rest)[..|name|] == name && (name + rest)[|name|..] == rest;
  }

  lemma NameBehindSlash(coder: Coder, d: Direction, name: seq<byte>, iv: Option<bv64>, started: bool)
    requires coder.Usable() && name != [] && HasNo(name, SLASH)
    ensures Recode(coder, d, [SLASH] + name, iv, started) ==
      Prefixed(if started then [SLASH] else [], RecodeName(coder, d, name, iv))
  {
    hide RecodeName, NameLen;
    assert ([SLASH] + name)[1..] == name;
    NameFirst(coder, d, name, [], iv, started);
    assert name + [] == name;
    var r := RecodeName(coder, d, name, iv);
    if r.Ok? { assert r.value.name + [] == r.value.name; }
  }

  // ----- Whole paths ----------------------------------------------------------------------------

  /** NameIO: with `chained`, each name is coded under the IV of the names before it. With
      `reverse`, encoding and decoding change places. */
  datatype NameIO = NameIO(coder: Coder, chained: bool, reverse: bool)
  {
    ghost predicate Valid() {
      coder.Valid() && coder.Usable()
    }

    function Encoding(): Direction {
      if reverse then Decode else Encode
    }

    function Decoding(): Direction {
      if reverse then Encode else Decode
    }

    /** Without chaining the caller's IV is neither used nor changed. */
    function PathCode(d: Direction, path: seq<byte>, iv: bv64): Result<(seq<byte>, bv64)>
      requires coder.Usable()
    {
      match Recode(coder, d, path, if chained then Some(iv) else None, false)
      case Err(e) => Err(e)
      case Ok(c) => Ok((c.name, if c.iv.Some? then c.iv.value else iv))
    }

    function EncodePath(path: seq<byte>, iv: bv64): Result<(seq<byte>, bv64)>
      requires coder.Usable()
    {
      PathCode(Encoding(), path, iv)
    }

    function DecodePath(path: seq<byte>, iv: bv64): Result<(seq<byte>, bv64)>
      requires coder.Usable()
    {
      PathCode(Decoding(), path, iv)
    }

    method RecodeFrom(d: Direction, path: seq<byte>, iv0: bv64) returns (r: Result<seq<byte>>, iv: bv64)
      requires Valid()
      ensures match PathCode(d, path, iv0)
        case Err(e) => r == Err(e)
        case Ok(c) => r == Ok(c.0) && iv == c.1
    {
      iv := iv0;
      var c := RecodePath(coder, d, path, if chained then Some(iv0) else None);
      match c {
        case Err(e) => r := Err(e);
        case Ok(v) =>
          r := Ok(v.name);
          if v.iv.Some? { iv := v.iv.value; }
      }
    }

    /** Any path comes back without the slashes at its start, and both ways lead to the same IV. */
    lemma PathRoundTrip(path: seq<byte>, iv: bv64)
      requires Valid() && HasNo(path, 0)
      ensures var there := if reverse then DecodePath(path, iv) else EncodePath(path, iv);
        && there.Ok?
        && (if reverse then EncodePath(there.value.0, iv) else DecodePath(there.value.0, iv))
           == Ok((Stripped(path, false), there.value.1))
    {
      PathBack(coder, path, if chained then Some(iv) else None, false);
      hide Recode;
    }

    /** The coding of a path below a directory is the coding of the directory, a slash, and the
        coding of the name under the IV that the directory's path leaves. */
    lemma PathBelow(d: Direction, dir: seq<byte>, name: seq<byte>, iv: bv64)
      requires coder.Usable() && name != [] && HasNo(name, SLASH)
      ensures match PathCode(d, dir, iv)
        case Err(e) => PathCode(d, dir + [SLASH] + name, iv) == Err(e)
        case Ok(c) =>
          PathCode(d, dir + [SLASH] + name, iv) ==
            match RecodeName(coder, d, name, if chained then Some(c.1) else None)
            case Err(e) => Err(e)
            case Ok(n) =>
              Ok((c.0 + (if c.0 != [] then [SLASH] else []) + n.name, if n.iv.Some? then n.iv.value else c.1))
    {
      hide Recode, RecodeName, NameLen, Stripped;
      var first := if chained then Some(iv) else None;
      assert dir + [SLASH] + name == dir + ([SLASH] + name);
      RecodeParts(coder, d, dir, [SLASH] + name, first, false);
      IVKept(coder, d, dir, first, false);
      match Recode(coder, d, dir, first, false)
      case Err(_) =>
      case Ok(c) =>
        NameBehindSlash(coder, d, name, c.iv, c.name != []);
        match RecodeName(coder, d, name, c.iv)
        case Err(_) =>
        case Ok(n) =>
          NameIVKept(coder, d, name, c.iv);
          var slash := if c.name != [] then [SLASH] else [];
          assert c.name + (slash + n.name) == c.name + slash + n.name;
    }
  }

  /** The bytes whose MAC is the checksum of a name. */
  ghost predicate UnderMac(coder: Coder, name: seq<byte>, d: seq<byte>) {
    match coder
    case InBlocks(b) =>
      && 0 < b.cipher.blockSize
      && |d| == |name| + (b.cipher.blockSize - |name| % b.cipher.blockSize) && d[..|name|] == name
      && forall k :: |name| <= k < |d| ==> ToNat(d[k]) == |d| - |name|
    case AsStreams(_) => d == name
    case AsIs => false
  }

  function MacOf(coder: Coder, d: seq<byte>, iv: bv64): bv64
    requires !coder.AsIs?
  {
    (if coder.InBlocks? then coder.blocks.cipher else coder.streams.cipher).mac64(d, Some(iv))
  }

  /** A name leaves the MAC of its bytes under the IV it was coded under, and is what its coder makes
      of it, up to a zero byte; "." and ".." leave the IV as it is. */
  lemma NameLeaves(coder: Coder, name: seq<byte>, iv: bv64, d: seq<byte>)
    requires coder.Usable() && name != [] && UnderMac(coder, name, d)
    ensures var r := RecodeName(coder, Encode, name, Some(iv));
      if name == [46] || name == [46, 46] then r == Ok(Coded(name, Some(iv)))
      else
        && r.Ok? && r.value.iv == Some(MacOf(coder, d, iv))
        && r.value.name == CString(coder.Code(Encode, name, Some(iv)).value.name)
  {
    hide BlockNameIO.Encode, StreamNameIO.Encode, CString;
    DotFileIs(name);
    match coder {
      case InBlocks(b) =>
        RoomForName(b.MaxEncodedNameLen(|name|), (|name| + b.Bs()) / b.Bs() * b.Bs());
        b.EncodeExactly(name, Some(iv), d);
      case AsStreams(s) =>
        RoomForName(s.MaxEncodedNameLen(|name|), |name|);
        s.EncodeExactly(name, Some(iv));
    }
  }

  lemma RoomForName(len: nat, n: nat)
    requires len == B256ToB64Bytes(n + 2)
    ensures len > 0
  {
  }

  /** With chaining, "dir/name" is coded with the name under the IV that the coding of "dir" leaves,
      and leaves the MAC of the name under that IV. */
  lemma ChildIV(io: NameIO, dir: seq<byte>, name: seq<byte>, iv: bv64, d: seq<byte>)
    requires io.coder.Usable() && io.chained && name != [] && HasNo(name, 47) && name != [46] && name != [46, 46]
    requires UnderMac(io.coder, name, d) && io.PathCode(Encode, dir, iv).Ok?
    ensures var below := io.PathCode(Encode, dir, iv).value;
      var coded := CString(io.coder.Code(Encode, name, Some(below.1)).value.name);
      io.PathCode(Encode, dir + [47] + name, iv)
        == Ok((below.0 + (if below.0 != [] then [47] else []) + coded, MacOf(io.coder, d, below.1)))
  {
    hide RecodeName, Recode, CString;
    io.PathBelow(Encode, dir, name, iv);
    NameLeaves(io.coder, name, io.PathCode(Encode, dir, iv).value.1, d);
  }

  /** Chaining neither starts nor stops within a path. */
  lemma {:induction false} IVKept(coder: Coder, d: Direction, path: seq<byte>, iv: Option<bv64>, started: bool)
    requires coder.Usable()
    ensures var r := Recode(coder, d, path, iv, started); r.Ok? ==> r.value.iv.Some? == iv.Some?
    decreases |path|
  {
    if path != [] {
      if path[0] == SLASH {
        IVKept(coder, d, path[1..], iv, started);
      } else {
        var n := NameLen(path);
        NameStarts(path);
        var c := RecodeName(coder, d, path[..n], iv);
        if c.Ok? {
          NameIVKept(coder, d, path[..n], iv);
          hide RecodeName;
          IVKept(coder, d, path[n..], c.value.iv, started || c.value.name != []);
        }
      }
    }
  }

  lemma NameIVKept(coder: Coder, d: Direction, name: seq<byte>, iv: Option<bv64>)
    requires coder.Usable() && name != []
    ensures var r := RecodeName(coder, d, name, iv); r.Ok? ==> r.value.iv.Some? == iv.Some?
  {
  }
}
