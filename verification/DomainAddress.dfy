/** Cross-domain agent and conversation addresses: the canonical codec of `domain_address.rs`. */
module DomainAddress {
  import opened Bytes
  import Base32
  import opened Utf8

  const DOT: byte := 0x2E
  const SLASH: byte := 0x2F

  /** `/collaboration/v1/` */
  const PREFIX: bytes :=
    [0x2F, 0x63, 0x6F, 0x6C, 0x6C, 0x61, 0x62, 0x6F, 0x72, 0x61, 0x74, 0x69, 0x6F, 0x6E, 0x2F, 0x76, 0x31, 0x2F]
  /** `a2` */
  const VERSION: bytes := [0x61, 0x32]
  /** `pairs`, `transcript`, `readers` */
  const PAIRS: bytes := [0x70, 0x61, 0x69, 0x72, 0x73]
  const TRANSCRIPT: bytes := [0x74, 0x72, 0x61, 0x6E, 0x73, 0x63, 0x72, 0x69, 0x70, 0x74]
  const READERS: bytes := [0x72, 0x65, 0x61, 0x64, 0x65, 0x72, 0x73]

  const MAX_SUBJECT_BYTES := 124
  const MAX_AGENT_SEGMENT := 255
  const MAX_PAIR_PATH := |PREFIX| + 32 + 7 + MAX_AGENT_SEGMENT * 3 + 1 + 9

  // ── Splitting at a separator ───────────────────────────────────────────

  function Split(s: bytes, sep: byte): (parts: seq<bytes>)
    ensures parts != []
  {
    if s == [] then [[]]
    else
      var rest := Split(s[1..], sep);
      if s[0] == sep then [[]] + rest else [[s[0]] + rest[0]] + rest[1..]
  }

  function Join(parts: seq<bytes>, sep: byte): bytes
    requires parts != []
  {
    if |parts| == 1 then parts[0] else parts[0] + ([sep] + Join(parts[1..], sep))
  }

  predicate Lacks(s: bytes, sep: byte) {
    forall i | 0 <= i < |s| :: s[i] != sep
  }

  predicate AllLack(parts: seq<bytes>, sep: byte) {
    forall i | 0 <= i < |parts| :: Lacks(parts[i], sep)
  }

  lemma {:induction false} SplitFirst(a: bytes, s: bytes, sep: byte)
    requires Lacks(a, sep)
    ensures Split(a + ([sep] + s), sep) == [a] + Split(s, sep)
  {
    if a == [] {
      assert a + ([sep] + s) == [sep] + s;
      ConsTail(sep, s);
    } else {
      JoinTail(a, [sep] + s);
      SplitFirst(a[1..], s, sep);
      ConsTail(a[1..], Split(s, sep));
      assert [a[0]] + a[1..] == a;
    }
  }

  lemma {:induction false} SplitWhole(a: bytes, sep: byte)
    requires Lacks(a, sep)
    ensures Split(a, sep) == [a]
  {
    if a != [] {
      SplitWhole(a[1..], sep);
      assert [a[0]] + a[1..] == a;
    }
  }

  lemma {:induction false} SplitJoin(parts: seq<bytes>, sep: byte)
    requires parts != [] && AllLack(parts, sep)
    ensures Split(Join(parts, sep), sep) == parts
  {
    assert Lacks(parts[0], sep);
    if |parts| == 1 {
      SplitWhole(parts[0], sep);
    } else {
      SplitFirst(parts[0], Join(parts[1..], sep), sep);
      SplitJoin(parts[1..], sep);
      assert [parts[0]] + parts[1..] == parts;
    }
  }

  // ── Agent addresses ────────────────────────────────────────────────────

  /** An authority's key fingerprint and a subject, in exact UTF-8. */
  datatype AgentAddress = AgentAddress(authority: bytes, subject: seq<scalar>)

  predicate IsControl(c: scalar) {
    c < 0x20 || 0x7F <= c < 0xA0
  }

  predicate ValidAgent(a: AgentAddress) {
    && |a.authority| == 32 && 0 < |EncodeAll(a.subject)| <= MAX_SUBJECT_BYTES
    && forall i | 0 <= i < |a.subject| :: !IsControl(a.subject[i])
  }

  function Segment(a: AgentAddress): bytes {
    Join([VERSION, Base32.Encode(a.authority), Base32.Encode(EncodeAll(a.subject))], DOT)
  }

  function ParseSegment(s: bytes): (a: Option<AgentAddress>)
    ensures a.Some? ==> ValidAgent(a.value) && Segment(a.value) == s
  {
    var parts := Split(s, DOT);
    if |s| > MAX_AGENT_SEGMENT || |parts| != 3 || parts[0] != VERSION then None
    else
      var authority, subject := Base32.Decode(parts[1]), Base32.Decode(parts[2]);
      if authority.None? || |authority.value| != 32 || subject.None? then None
      else
        var text := DecodeAll(subject.value);
        if text.None? then None
        else
          var a := AgentAddress(authority.value, text.value);
          if ValidAgent(a) && Segment(a) == s then Some(a) else None
  }

  /** Lowercase letters and digits only: no separator, nothing a case-insensitive store would fold. */
  predicate IsPlain(s: bytes) {
    forall i | 0 <= i < |s| :: IsLower(s[i]) || IsDigit(s[i])
  }

  predicate IsAddressText(s: bytes) {
    forall i | 0 <= i < |s| :: IsLower(s[i]) || IsDigit(s[i]) || s[i] == DOT
  }

  lemma JoinThree(a: bytes, b: bytes, c: bytes, sep: byte)
    ensures Join([a, b, c], sep) == a + ([sep] + (b + ([sep] + c)))
  {
    assert [a, b, c][1..] == [b, c] && [b, c][1..] == [c];
    assert Join([c], sep) == c;
    assert Join([b, c], sep) == b + ([sep] + c);
  }

  /** A segment fits its bound and is lowercase ASCII. */
  lemma SegmentShape(a: AgentAddress)
    requires ValidAgent(a)
    ensures |Segment(a)| <= MAX_AGENT_SEGMENT && IsAddressText(Segment(a))
  {
    var x, y := Base32.Encode(a.authority), Base32.Encode(EncodeAll(a.subject));
    JoinThree(VERSION, x, y, DOT);
    assert |x| == 52 && |y| <= 199;
    assert IsPlain(x) && IsPlain(y) && IsPlain(VERSION);
  }

  /** Parsing what was printed gives it back. */
  lemma ParsePrinted(a: AgentAddress)
    requires ValidAgent(a)
    ensures ParseSegment(Segment(a)) == Some(a)
  {
    var x, y := Base32.Encode(a.authority), Base32.Encode(EncodeAll(a.subject));
    SegmentShape(a);
    assert Lacks(VERSION, DOT) && Lacks(x, DOT) && Lacks(y, DOT);
    SplitJoin([VERSION, x, y], DOT);
    Base32.DecodeEncode(a.authority);
    Base32.DecodeEncode(EncodeAll(a.subject));
    DecodeEncode(a.subject);
  }

  /** Different addresses have different segments. */
  lemma SegmentInjective(a: AgentAddress, b: AgentAddress)
    requires ValidAgent(a) && ValidAgent(b) && Segment(a) == Segment(b)
    ensures a == b
  {
    ParsePrinted(a);
    ParsePrinted(b);
  }

  lemma {:induction false} JoinSplit(s: bytes, sep: byte)
    ensures Join(Split(s, sep), sep) == s
  {
    if s != [] {
      var rest := Split(s[1..], sep);
      JoinSplit(s[1..], sep);
      if s[0] == sep {
        ConsTail([], rest);
        assert [] + ([sep] + Join(rest, sep)) == s;
      } else {
        var first := [s[0]] + rest[0];
        ConsTail(first, rest[1..]);
        if |rest| > 1 {
          Assoc([s[0]], rest[0], [sep] + Join(rest[1..], sep));
        }
        assert s == [s[0]] + s[1..];
      }
    }
  }

  /** The final comparison of the parser never fails: each layer is canonical on its own. */
  lemma AlreadyCanonical(s: bytes, authority: bytes, subject: bytes, text: seq<scalar>)
    requires |Split(s, DOT)| == 3 && Split(s, DOT)[0] == VERSION
    requires Base32.Decode(Split(s, DOT)[1]) == Some(authority) && Base32.Decode(Split(s, DOT)[2]) == Some(subject)
    requires DecodeAll(subject) == Some(text)
    ensures Segment(AgentAddress(authority, text)) == s
  {
    var parts := Split(s, DOT);
    Base32.EncodeDecode(parts[1]);
    Base32.EncodeDecode(parts[2]);
    EncodeDecode(subject);
    assert parts == [VERSION, Base32.Encode(authority), Base32.Encode(EncodeAll(text))];
    JoinSplit(s, DOT);
  }

  // ── Conversations ──────────────────────────────────────────────────────

  /** Two participants, in the order of their segments. */
  datatype Conversation = Conversation(space: bytes, first: AgentAddress, second: AgentAddress)

  predicate ValidSpace(space: bytes) {
    |space| == 32 && forall i | 0 <= i < |space| :: IsDigit(space[i]) || 0x61 <= space[i] <= 0x66
  }

  predicate ValidConversation(c: Conversation) {
    ValidSpace(c.space) && ValidAgent(c.first) && ValidAgent(c.second) && Less(Segment(c.first), Segment(c.second))
  }

  function Converse(space: bytes, a: AgentAddress, b: AgentAddress): (c: Option<Conversation>)
    requires ValidAgent(a) && ValidAgent(b)
    ensures c.Some? ==> ValidConversation(c.value)
    ensures c.Some? <==> ValidSpace(space) && a != b
  {
    if !ValidSpace(space) then None
    else if Segment(a) == Segment(b) then SegmentInjective(a, b); None
    else if Less(Segment(a), Segment(b)) then Some(Conversation(space, a, b))
    else LessTotal(Segment(a), Segment(b)); Some(Conversation(space, b, a))
  }

  /** Both participants derive the same conversation, and no other pair does. */
  lemma ConverseSymmetric(space: bytes, a: AgentAddress, b: AgentAddress)
    requires ValidAgent(a) && ValidAgent(b)
    ensures Converse(space, a, b) == Converse(space, b, a)
    ensures Converse(space, a, b).Some? ==>
      {Converse(space, a, b).value.first, Converse(space, a, b).value.second} == {a, b}
  {
    LessTotal(Segment(a), Segment(b));
  }

  datatype Path = Transcript(conversation: Conversation) | Reader(conversation: Conversation, owner: AgentAddress)

  /** Only participants have readers. */
  predicate ValidPath(p: Path) {
    ValidConversation(p.conversation)
    && (p.Reader? ==> p.owner == p.conversation.first || p.owner == p.conversation.second)
  }

  function PathParts(p: Path): (parts: seq<bytes>)
    ensures |parts| == if p.Transcript? then 5 else 6
  {
    var c := p.conversation;
    var root := [c.space, PAIRS, Segment(c.first), Segment(c.second)];
    match p
    case Transcript(_) => root + [TRANSCRIPT]
    case Reader(_, owner) => root + [READERS, Segment(owner)]
  }

  function Print(p: Path): bytes {
    PREFIX + Join(PathParts(p), SLASH)
  }

  predicate Reads(s: bytes, text: string) {
    |s| == |text| && forall i | 0 <= i < |s| :: s[i] == text[i] as int
  }

  lemma Constants()
    ensures Reads(PREFIX, "/collaboration/v1/") && Reads(PAIRS, "pairs") && Reads(TRANSCRIPT, "transcript")
    ensures Reads(READERS, "readers") && Reads(VERSION, "a2")
  {
  }

  lemma ReadsOnce(s: bytes, t: bytes, text: string)
    requires Reads(s, text) && Reads(t, text)
    ensures s == t
  {
  }

  /** How a segment reads: `a2.`, the authority, `.`, the subject. */
  lemma SegmentText(a: AgentAddress, version: bytes)
    requires Reads(version, "a2")
    ensures Segment(a) == version + (['.' as int] + (Base32.Encode(a.authority) + (['.' as int] + Base32.Encode(EncodeAll(a.subject)))))
  {
    Constants();
    ReadsOnce(version, VERSION, "a2");
    var parts := [VERSION, Base32.Encode(a.authority), Base32.Encode(EncodeAll(a.subject))];
    assert Join(parts, DOT) == VERSION + ([DOT] + Join(parts[1..], DOT));
    assert Join(parts[1..], DOT) == parts[1] + ([DOT] + Join(parts[1..][1..], DOT));
  }

  /**
   How a path reads: `/collaboration/v1/` and the space, `/pairs/` and the two
   segments in order, and `/transcript`, or `/readers/` and the owner's segment.
   */
  lemma PathText(p: Path, prefix: bytes, pairs: bytes, last: bytes)
    requires Reads(prefix, "/collaboration/v1/") && Reads(pairs, "pairs")
    requires Reads(last, if p.Transcript? then "transcript" else "readers")
    ensures
      var c, slash: bytes := p.conversation, ['/' as int];
      Print(p) == prefix + (c.space + (slash + (pairs + (slash + (Segment(c.first) + (slash + (Segment(c.second)
                  + (slash + if p.Transcript? then last else last + (slash + Segment(p.owner))))))))))
  {
    Constants();
    ReadsOnce(prefix, PREFIX, "/collaboration/v1/");
    ReadsOnce(pairs, PAIRS, "pairs");
    if p.Transcript? {
      ReadsOnce(last, TRANSCRIPT, "transcript");
    } else {
      ReadsOnce(last, READERS, "readers");
    }
    JoinText(PathParts(p));
  }

  /** Five or six parts, joined. */
  lemma JoinText(parts: seq<bytes>)
    requires 5 <= |parts| <= 6
    ensures Join(parts, SLASH)
         == parts[0] + ([SLASH] + (parts[1] + ([SLASH] + (parts[2] + ([SLASH] + (parts[3] + ([SLASH]
            + if |parts| == 5 then parts[4] else parts[4] + ([SLASH] + parts[5]))))))))
  {
    assert Join(parts[1..], SLASH) == parts[1] + ([SLASH] + Join(parts[2..], SLASH));
    assert Join(parts[2..], SLASH) == parts[2] + ([SLASH] + Join(parts[3..], SLASH));
    assert Join(parts[3..], SLASH) == parts[3] + ([SLASH] + Join(parts[4..], SLASH));
    if |parts| == 6 {
      assert Join(parts[4..], SLASH) == parts[4] + ([SLASH] + Join(parts[5..], SLASH));
    }
  }

  /** Exactly which addresses are accepted: a 32-byte authority and a subject of 1 to 124 bytes without control characters. */
  lemma SegmentAccepted(a: AgentAddress)
    ensures ParseSegment(Segment(a)) == Some(a)
       <==> && |a.authority| == 32 && 1 <= |EncodeAll(a.subject)| <= 124
            && forall i | 0 <= i < |a.subject| :: 0x20 <= a.subject[i] <= 0x7E || 0xA0 <= a.subject[i]
  {
    if ValidAgent(a) {
      ParsePrinted(a);
    }
  }

  /** One of the sixteen lower-case hexadecimal digits. */
  ghost predicate IsHexLetter(b: byte) {
    exists k | 0 <= k < 16 :: b == "0123456789abcdef"[k] as int
  }

  /** Exactly which conversations there are: of two different agents, in a space named by 32 lower-case hexadecimal digits. */
  lemma ConverseExact(space: bytes, a: AgentAddress, b: AgentAddress)
    requires ValidAgent(a) && ValidAgent(b)
    ensures Converse(space, a, b).Some? <==> a != b && |space| == 32 && forall i | 0 <= i < 32 :: IsHexLetter(space[i])
  {
    SpaceExact(space);
  }

  lemma SpaceExact(space: bytes)
    ensures ValidSpace(space) <==> |space| == 32 && forall i | 0 <= i < 32 :: IsHexLetter(space[i])
  {
    forall i | 0 <= i < |space| ensures IsDigit(space[i]) || 0x61 <= space[i] <= 0x66 <==> IsHexLetter(space[i]) {
      HexLetter(space[i]);
    }
  }

  lemma HexLetter(b: byte)
    ensures IsDigit(b) || 0x61 <= b <= 0x66 <==> IsHexLetter(b)
  {
    var hex := "0123456789abcdef";
    if IsDigit(b) {
      assert b == hex[b - 0x30] as int;
    } else if 0x61 <= b <= 0x66 {
      assert b == hex[b - 0x61 + 10] as int;
    }
  }

  /** The address a path spells, before its canonical order is checked. */
  function ReadParts(parts: seq<bytes>): (p: Option<Path>)
    ensures p.Some? ==> ValidPath(p.value)
  {
    if !(|parts| == 5 && parts[1] == PAIRS && parts[4] == TRANSCRIPT)
       && !(|parts| == 6 && parts[1] == PAIRS && parts[4] == READERS) then None
    else
      var a, b := ParseSegment(parts[2]), ParseSegment(parts[3]);
      if a.None? || b.None? then None
      else
        var c := Converse(parts[0], a.value, b.value);
        if c.None? then None
        else if |parts| == 5 then Some(Transcript(c.value))
        else
          var owner := ParseSegment(parts[5]);
          if owner.None? || (owner.value != c.value.first && owner.value != c.value.second) then None
          else Some(Reader(c.value, owner.value))
  }

  function ParsePath(path: bytes): (p: Option<Path>)
    ensures p.Some? ==> ValidPath(p.value) && Print(p.value) == path
  {
    if |path| > MAX_PAIR_PATH || !(PREFIX <= path) then None
    else
      var p := ReadParts(Split(path[|PREFIX|..], SLASH));
      if p.None? || Print(p.value) != path then None else p
  }

  // ── Paths are canonical ────────────────────────────────────────────────

  predicate IsPathPart(s: bytes) {
    forall i | 0 <= i < |s| :: !IsUpper(s[i]) && s[i] != SLASH
  }

  lemma SegmentPart(a: AgentAddress)
    requires ValidAgent(a)
    ensures IsPathPart(Segment(a)) && |Segment(a)| <= MAX_AGENT_SEGMENT
  {
    SegmentShape(a);
  }

  lemma PartsShape(p: Path)
    requires ValidPath(p)
    ensures forall i | 0 <= i < |PathParts(p)| :: IsPathPart(PathParts(p)[i])
    ensures AllLack(PathParts(p), SLASH)
  {
    SegmentPart(p.conversation.first);
    SegmentPart(p.conversation.second);
    if p.Reader? {
      SegmentPart(p.owner);
    }
  }

  /** Parsing a printed path gives it back, and within the bound. */
  lemma ParsePrintedPath(p: Path)
    requires ValidPath(p)
    ensures |Print(p)| <= MAX_PAIR_PATH && ParsePath(Print(p)) == Some(p)
  {
    var parts := PathParts(p);
    PathBound(p);
    PartsShape(p);
    SplitJoin(parts, SLASH);
    TakeDrop(PREFIX, Join(parts, SLASH));
    ReadPrinted(p);
  }

  lemma ConverseAgain(c: Conversation)
    requires ValidConversation(c)
    ensures Converse(c.space, c.first, c.second) == Some(c)
    ensures ParseSegment(Segment(c.first)) == Some(c.first) && ParseSegment(Segment(c.second)) == Some(c.second)
  {
    ParsePrinted(c.first);
    ParsePrinted(c.second);
    LessTotal(Segment(c.first), Segment(c.second));
  }

  /** What the parts of a path read as, once its segments are read. */
  lemma ReadConversation(parts: seq<bytes>, c: Conversation)
    requires |parts| >= 5 && parts[0] == c.space && parts[1] == PAIRS
    requires ParseSegment(parts[2]) == Some(c.first) && ParseSegment(parts[3]) == Some(c.second)
    requires Converse(c.space, c.first, c.second) == Some(c)
    ensures |parts| == 5 && parts[4] == TRANSCRIPT ==> ReadParts(parts) == Some(Transcript(c))
    ensures |parts| == 6 && parts[4] == READERS ==>
      forall owner | ParseSegment(parts[5]) == Some(owner) && (owner == c.first || owner == c.second) ::
        ReadParts(parts) == Some(Reader(c, owner))
  {
  }

  lemma ReadPrinted(p: Path)
    requires ValidPath(p)
    ensures ReadParts(PathParts(p)) == Some(p)
  {
    var c, parts := p.conversation, PathParts(p);
    ConverseAgain(c);
    assert parts[2] == Segment(c.first) && parts[3] == Segment(c.second);
    if p.Reader? {
      ParsePrinted(p.owner);
    }
    ReadConversation(parts, c);
  }

  lemma JoinStep(parts: seq<bytes>, sep: byte)
    requires |parts| > 1
    ensures |Join(parts, sep)| == |parts[0]| + 1 + |Join(parts[1..], sep)|
  {
  }

  lemma PathBound(p: Path)
    requires ValidPath(p)
    ensures |Print(p)| <= MAX_PAIR_PATH
  {
    var parts, c := PathParts(p), p.conversation;
    SegmentPart(c.first);
    SegmentPart(c.second);
    JoinStep(parts, SLASH);
    JoinStep(parts[1..], SLASH);
    JoinStep(parts[1..][1..], SLASH);
    JoinStep(parts[1..][1..][1..], SLASH);
    assert parts[1..][1..][1..][1..] == parts[4..];
    if p.Reader? {
      SegmentPart(p.owner);
      JoinStep(parts[4..], SLASH);
      assert parts[4..][1..] == [Segment(p.owner)];
    } else {
      assert parts[4..] == [TRANSCRIPT];
    }
  }

  // ── Case-insensitive storage ───────────────────────────────────────────

  function Fold(s: bytes): (r: bytes)
    ensures |r| == |s|
  {
    seq(|s|, i requires 0 <= i < |s| => if IsUpper(s[i]) then s[i] + 32 else s[i])
  }

  predicate HasNoUpper(s: bytes) {
    forall i | 0 <= i < |s| :: !IsUpper(s[i])
  }

  lemma {:induction false} JoinNoUpper(parts: seq<bytes>, sep: byte)
    requires parts != [] && !IsUpper(sep) && forall i | 0 <= i < |parts| :: HasNoUpper(parts[i])
    ensures HasNoUpper(Join(parts, sep))
  {
    assert HasNoUpper(parts[0]);
    if |parts| > 1 {
      JoinNoUpper(parts[1..], sep);
    }
  }

  lemma PrintNoUpper(p: Path)
    requires ValidPath(p)
    ensures HasNoUpper(Print(p))
  {
    PartsShape(p);
    forall i | 0 <= i < |PathParts(p)| ensures HasNoUpper(PathParts(p)[i]) {
      assert IsPathPart(PathParts(p)[i]);
    }
    JoinNoUpper(PathParts(p), SLASH);
    assert HasNoUpper(PREFIX);
  }

  lemma FoldLower(s: bytes)
    requires HasNoUpper(s)
    ensures Fold(s) == s
  {
  }

  /** Two accepted paths that a case-insensitive store takes for one are one. */
  lemma CaseDistinct(path: bytes, path': bytes)
    requires ParsePath(path).Some? && ParsePath(path').Some? && Fold(path) == Fold(path')
    ensures path == path'
  {
    PrintNoUpper(ParsePath(path).value);
    PrintNoUpper(ParsePath(path').value);
    FoldLower(path);
    FoldLower(path');
  }

  /** A bijection: valid addresses and accepted paths stand for each other. */
  lemma PathBijection(path: bytes, p: Path)
    ensures ParsePath(path) == Some(p) <==> ValidPath(p) && Print(p) == path
  {
    if ValidPath(p) {
      ParsePrintedPath(p);
    }
  }
}
