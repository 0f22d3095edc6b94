/** File attributes in SFTP replies (section 5 of draft-ietf-secsh-filexfer-02).
    The code never counts down the extended pairs it has read, so it can only
    read attributes that have none. */
module SftpAttrs {
  import opened Bytes
  import opened SftpWire

  const ATTR_SIZE: nat := 0x1
  const ATTR_UIDGID: nat := 0x2
  const ATTR_PERMISSIONS: nat := 0x4
  const ATTR_ACMODTIME: nat := 0x8
  const ATTR_EXTENDED: nat := 0x8000_0000

  predicate Flag(flags: nat, mask: nat)
    requires mask > 0
  {
    flags / mask % 2 == 1
  }

  datatype Attributes = Attributes(flags: nat, size: nat, uid: nat, gid: nat, permissions: nat, atime: nat, mtime: nat,
                                   extended: map<Bytes, Bytes>)

  /** Two words in a row. */
  function TwoAt(s: Bytes, i: nat): Option<(nat, nat)>
  {
    match (Uint32At(s, i), Uint32At(s, i + 4))
    case (Some(a), Some(b)) => Some((a, b))
    case _ => None
  }

  /** The attributes up to the extended ones, and the index there; a field
      whose flag is not set is left at zero. */
  function PlainAt(s: Bytes, i: nat): (r: Option<(Attributes, nat)>)
    ensures r.Some? ==> r.value.0.extended == map[]
  {
    match Uint32At(s, i)
    case None => None
    case Some(flags) =>
      var i1 := i + 4;
      match if Flag(flags, ATTR_SIZE) then Uint64At(s, i1) else Some(0)
      case None => None
      case Some(size) =>
        var i2 := if Flag(flags, ATTR_SIZE) then i1 + 8 else i1;
        match if Flag(flags, ATTR_UIDGID) then TwoAt(s, i2) else Some((0, 0))
        case None => None
        case Some((uid, gid)) =>
          var i3 := if Flag(flags, ATTR_UIDGID) then i2 + 8 else i2;
          match if Flag(flags, ATTR_PERMISSIONS) then Uint32At(s, i3) else Some(0)
          case None => None
          case Some(permissions) =>
            var i4 := if Flag(flags, ATTR_PERMISSIONS) then i3 + 4 else i3;
            match if Flag(flags, ATTR_ACMODTIME) then TwoAt(s, i4) else Some((0, 0))
            case None => None
            case Some((atime, mtime)) =>
              var i5 := if Flag(flags, ATTR_ACMODTIME) then i4 + 8 else i4;
              Some((Attributes(flags, size, uid, gid, permissions, atime, mtime, map[]), i5))
  }

  /** `count` pairs of strings. */
  function PairsAt(s: Bytes, i: nat, count: nat, sofar: map<Bytes, Bytes>): Option<(map<Bytes, Bytes>, nat)>
    decreases count
  {
    if count == 0 then Some((sofar, i))
    else
      match StringAt(s, i)
      case None => None
      case Some((k, j)) =>
        match StringAt(s, j)
        case None => None
        case Some((v, l)) => PairsAt(s, l, count - 1, sofar[k := v])
  }

  /** The attributes as the draft lays them out. */
  function AttrsMeant(s: Bytes, i: nat): Option<(Attributes, nat)>
  {
    match PlainAt(s, i)
    case None => None
    case Some((a, j)) =>
      if !Flag(a.flags, ATTR_EXTENDED) then Some((a, j))
      else
        match Uint32At(s, j)
        case None => None
        case Some(count) =>
          match PairsAt(s, j + 4, count, map[])
          case None => None
          case Some((pairs, l)) => Some((a.(extended := pairs), l))
  }

  /** At least one extended pair is announced. */
  predicate HasExtended(s: Bytes, i: nat)
  {
    match PlainAt(s, i)
    case None => false
    case Some((a, j)) =>
      Flag(a.flags, ATTR_EXTENDED) && Uint32At(s, j).Some? && Uint32At(s, j).value > 0
  }

  /** `unpack_attrs`: fails exactly where extended pairs are announced, and on
      every other packet reads what the draft means.  Running past the end of
      the packet throws, which also is the only way out of the loop. */
  method UnpackAttrs(s: Bytes, start: nat) returns (r: Option<(Attributes, nat)>)
    ensures r == if HasExtended(s, start) then None else AttrsMeant(s, start)
  {
    hide Uint32At, StringAt, Flag;
    var index := start;
    var plain := PlainAt(s, index);
    if plain.None? {
      return None;
    }
    var attrs := plain.value.0;
    index := plain.value.1;
    if Flag(attrs.flags, ATTR_EXTENDED) {
      var count := Uint32At(s, index);
      if count.None? {
        return None;
      }
      index := index + 4;
      while count.value > 0
        invariant count.value == 0 ==> attrs == plain.value.0 && index == plain.value.1 + 4
        decreases if index <= |s| then |s| - index + 1 else 0
      {
        var k := StringAt(s, index);
        if k.None? { return None; }
        var v := StringAt(s, k.value.1);
        if v.None? { return None; }
        index := v.value.1;
        attrs := attrs.(extended := attrs.extended[k.value.0 := v.value.0]);
      }
      assert PairsAt(s, index, 0, map[]) == Some((map[], index));
    }
    return Some((attrs, index));
  }

  // Laid out ----------------------------------------------------------------------------

  /** The values can be written, and what has no flag is zero. */
  predicate Writable(a: Attributes)
  {
    && a.flags < UINT32 && a.size < UINT64 && a.uid < UINT32 && a.gid < UINT32 && a.permissions < UINT32
    && a.atime < UINT32 && a.mtime < UINT32 && a.extended == map[]
    && (!Flag(a.flags, ATTR_SIZE) ==> a.size == 0)
    && (!Flag(a.flags, ATTR_UIDGID) ==> a.uid == 0 && a.gid == 0)
    && (!Flag(a.flags, ATTR_PERMISSIONS) ==> a.permissions == 0)
    && (!Flag(a.flags, ATTR_ACMODTIME) ==> a.atime == 0 && a.mtime == 0)
  }

  function SizePart(a: Attributes): Bytes
    requires Writable(a)
  {
    if Flag(a.flags, ATTR_SIZE) then PackUint64(a.size) else []
  }

  function OwnerPart(a: Attributes): Bytes
    requires Writable(a)
  {
    if Flag(a.flags, ATTR_UIDGID) then PackUint32(a.uid) + PackUint32(a.gid) else []
  }

  function ModePart(a: Attributes): Bytes
    requires Writable(a)
  {
    if Flag(a.flags, ATTR_PERMISSIONS) then PackUint32(a.permissions) else []
  }

  function TimePart(a: Attributes): Bytes
    requires Writable(a)
  {
    if Flag(a.flags, ATTR_ACMODTIME) then PackUint32(a.atime) + PackUint32(a.mtime) else []
  }

  /** Section 5 of the draft: flags, size, owner, permissions and times, each but
      the first only if its flag is set. */
  function PackAttrs(a: Attributes): Bytes
    requires Writable(a)
  {
    PackUint32(a.flags) + SizePart(a) + OwnerPart(a) + ModePart(a) + TimePart(a)
  }

  lemma {:induction false} TwoWithin(x: Bytes, a: nat, b: nat, y: Bytes)
    requires a < UINT32 && b < UINT32
    ensures TwoAt(x + (PackUint32(a) + PackUint32(b)) + y, |x|) == Some((a, b))
  {
    hide Uint32At, BigEndian32;
    Uint32Within(x, a, PackUint32(b) + y);
    Uint32Within(x + PackUint32(a), b, y);
    assert x + PackUint32(a) + (PackUint32(b) + y) == x + (PackUint32(a) + PackUint32(b)) + y;
    assert x + PackUint32(a) + PackUint32(b) + y == x + (PackUint32(a) + PackUint32(b)) + y;
  }

  /** Where the parts are in a packet, and what is read there. */
  lemma {:induction false} PartsAt(before: Bytes, a: Attributes, after: Bytes)
    requires Writable(a)
    ensures var s := before + PackAttrs(a) + after;
            var i1 := |before| + 4;
            var i2 := i1 + |SizePart(a)|;
            var i3 := i2 + |OwnerPart(a)|;
            var i4 := i3 + |ModePart(a)|;
            && Uint32At(s, |before|) == Some(a.flags) && i4 + |TimePart(a)| == |before| + |PackAttrs(a)|
            && (Flag(a.flags, ATTR_SIZE) ==> Uint64At(s, i1) == Some(a.size))
            && (Flag(a.flags, ATTR_UIDGID) ==> TwoAt(s, i2) == Some((a.uid, a.gid)))
            && (Flag(a.flags, ATTR_PERMISSIONS) ==> Uint32At(s, i3) == Some(a.permissions))
            && (Flag(a.flags, ATTR_ACMODTIME) ==> TwoAt(s, i4) == Some((a.atime, a.mtime)))
  {
    hide Uint32At, Uint64At, TwoAt, BigEndian32, Flag;
    var s := before + PackAttrs(a) + after;
    var s1, s2, s3, s4 := SizePart(a), OwnerPart(a), ModePart(a), TimePart(a);
    var h1 := before + PackUint32(a.flags);
    Regrouped(h1, s1, s2, s3, s4, after);
    assert s == h1 + s1 + s2 + s3 + s4 + after;
    Uint32Within(before, a.flags, s1 + (s2 + s3 + s4 + after));
    if Flag(a.flags, ATTR_SIZE) {
      Uint64Within(h1, a.size, s2 + s3 + s4 + after);
    }
    if Flag(a.flags, ATTR_UIDGID) {
      TwoWithin(h1 + s1, a.uid, a.gid, s3 + s4 + after);
    }
    if Flag(a.flags, ATTR_PERMISSIONS) {
      Uint32Within(h1 + s1 + s2, a.permissions, s4 + after);
    }
    if Flag(a.flags, ATTR_ACMODTIME) {
      TwoWithin(h1 + s1 + s2 + s3, a.atime, a.mtime, after);
    }
  }

  lemma {:induction false} Regrouped(h: Bytes, s1: Bytes, s2: Bytes, s3: Bytes, s4: Bytes, t: Bytes)
    ensures h + s1 + s2 + s3 + s4 + t == h + (s1 + (s2 + s3 + s4 + t))
    ensures h + s1 + s2 + s3 + s4 + t == h + s1 + (s2 + s3 + s4 + t)
    ensures h + s1 + s2 + s3 + s4 + t == h + s1 + s2 + (s3 + s4 + t)
    ensures h + s1 + s2 + s3 + s4 + t == h + s1 + s2 + s3 + (s4 + t)
  {
  }

  /** What is laid out so is read back, wherever it stands in a packet. */
  lemma {:induction false} PlainInvertsPack(before: Bytes, a: Attributes, after: Bytes)
    requires Writable(a)
    ensures PlainAt(before + PackAttrs(a) + after, |before|) == Some((a, |before| + |PackAttrs(a)|))
  {
    hide Uint32At, Uint64At, TwoAt, Flag, PackAttrs;
    PartsAt(before, a, after);
  }

  /** The attributes of a file of 256 octets with permissions 0644, octet by
      octet. */
  lemma {:induction false} PlainExample()
    ensures PlainAt([ByteOf(0), ByteOf(0), ByteOf(0), ByteOf(5)] + Zero(6) + [ByteOf(1), ByteOf(0)] +
                    [ByteOf(0), ByteOf(0), ByteOf(1), ByteOf(0xA4)], 0) ==
            Some((Attributes(5, 256, 0, 0, 0x1A4, 0, 0, map[]), 16))
  {
  }

  /** One well-formed set of attributes that the code cannot read. */
  lemma {:induction false} ExtendedExample()
    ensures var s := PackUint32(ATTR_EXTENDED) + PackUint32(1) + PackString("k") + PackString("v");
            AttrsMeant(s, 0).Some? && AttrsMeant(s, 0).value.0.extended == map["k" := "v"] && HasExtended(s, 0)
  {
    hide Uint32At, StringAt, BigEndian32;
    var flags, count, k, v := PackUint32(ATTR_EXTENDED), PackUint32(1), PackString("k"), PackString("v");
    var s := flags + count + k + v;
    Uint32Within([], ATTR_EXTENDED, count + k + v);
    assert [] + flags + (count + k + v) == s;
    Uint32Within(flags, 1, k + v);
    assert flags + count + (k + v) == s;
    StringWithin(flags + count, "k", v);
    StringWithin(flags + count + k, "v", []);
    assert s + [] == s;
    assert PlainAt(s, 0) == Some((Attributes(ATTR_EXTENDED, 0, 0, 0, 0, 0, 0, map[]), 4));
    assert PairsAt(s, 18, 0, map["k" := "v"]) == Some((map["k" := "v"], 18));
    assert PairsAt(s, 8, 1, map[]) == PairsAt(s, 18, 0, map["k" := "v"]);
  }
}
