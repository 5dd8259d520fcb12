/** The lockfile token `boot:pid:secs` and the decision whether an existing lock still binds. */
module Lockfile {
  import opened Wrappers

  datatype Token = Token(bootId: string, pid: U32, createdAt: U64)

  /** The bytes of a lockfile: text, or bytes that are not UTF-8. */
  datatype Payload = Text(text: string) | NotUtf8

  datatype LockError = Malformed | Contended(pid: U32, bootId: string)

  // ---- Text -----------------------------------------------------------

  /** The Unicode White_Space characters, which `str::trim` removes. */
  predicate IsWhitespace(c: char) {
    '\U{0009}' <= c <= '\U{000D}' || c == ' ' || c == '\U{0085}' || c == '\U{00A0}' || c == '\U{1680}' ||
    '\U{2000}' <= c <= '\U{200A}' || c == '\U{2028}' || c == '\U{2029}' || c == '\U{202F}' || c == '\U{205F}' ||
    c == '\U{3000}'
  }

  function TrimStart(s: string): string {
    if s != "" && IsWhitespace(s[0]) then TrimStart(s[1..]) else s
  }

  function TrimEnd(s: string): string {
    if s != "" && IsWhitespace(s[|s| - 1]) then TrimEnd(s[..|s| - 1]) else s
  }

  function Trim(s: string): string {
    TrimEnd(TrimStart(s))
  }

  /** `split(':')`: always at least one piece. */
  function Split(s: string): (r: seq<string>)
    ensures |r| >= 1
  {
    if s == "" then [""]
    else
      var r := Split(s[1..]);
      if s[0] == ':' then [""] + r else [[s[0]] + r[0]] + r[1..]
  }

  function DigitChar(d: nat): char
    requires d < 10
  {
    "0123456789"[d]
  }

  function Decimal(n: nat): (s: string)
    ensures s != ""
  {
    if n < 10 then [DigitChar(n)] else Decimal(n / 10) + [DigitChar(n % 10)]
  }

  function DigitValue(c: char): Option<nat> {
    if '0' <= c <= '9' then Some(c as int - '0' as int) else None
  }

  /** The value of a digit string, checked against `max` digit by digit. */
  function DigitsValue(s: string, max: nat): (r: Option<nat>)
    ensures r.Some? ==> r.value <= max
  {
    if s == "" then Some(0)
    else
      var v, d := DigitsValue(s[..|s| - 1], max), DigitValue(s[|s| - 1]);
      if v.Some? && d.Some? && v.value * 10 + d.value <= max then Some(v.value * 10 + d.value) else None
  }

  /** `str::parse` to an unsigned integer: digits behind an optional plus sign. */
  function ParseUnsigned(s: string, max: nat): (r: Option<nat>)
    ensures r.Some? ==> r.value <= max
  {
    if s == "" || s == "+" then None
    else if s[0] == '+' then DigitsValue(s[1..], max)
    else DigitsValue(s, max)
  }

  // ---- Token codec ----------------------------------------------------

  function Line(t: Token): string {
    t.bootId + ":" + Decimal(t.pid) + ":" + Decimal(t.createdAt) + "\n"
  }

  function Encode(t: Token): Payload {
    Text(Line(t))
  }

  function DecodeText(text: string): Result<Token, LockError> {
    var parts := Split(Trim(text));
    if |parts| != 3 then Err(Malformed)
    else if Trim(parts[0]) == "" then Err(Malformed)
    else
      var pid := ParseUnsigned(parts[1], U32_MAX);
      if pid.None? || pid.value == 0 then Err(Malformed)
      else
        var secs := ParseUnsigned(parts[2], U64_MAX);
        if secs.None? then Err(Malformed)
        else Ok(Token(parts[0], pid.value, secs.value))
  }

  function Decode(p: Payload): Result<Token, LockError> {
    match p
    case NotUtf8 => Err(Malformed)
    case Text(text) => DecodeText(text)
  }

  // ---- Printing and parsing undo each other ---------------------------

  predicate NoColon(s: string) {
    forall i :: 0 <= i < |s| ==> s[i] != ':'
  }

  predicate AllDigits(s: string) {
    forall i :: 0 <= i < |s| ==> '0' <= s[i] <= '9'
  }

  lemma {:induction false} DecimalIsDigits(n: nat)
    ensures AllDigits(Decimal(n))
  {
    if n >= 10 { DecimalIsDigits(n / 10); }
  }

  lemma DigitAppended(s: string, d: nat, max: nat)
    requires d < 10
    ensures DigitsValue(s + [DigitChar(d)], max) ==
            match DigitsValue(s, max)
            case Some(v) => if v * 10 + d <= max then Some(v * 10 + d) else None
            case None => None
  {
    var all := s + [DigitChar(d)];
    assert all[..|all| - 1] == s;
    assert DigitValue(DigitChar(d)) == Some(d);
  }

  lemma {:induction false} DecimalParses(n: nat, max: nat)
    requires n <= max
    ensures DigitsValue(Decimal(n), max) == Some(n)
  {
    if n >= 10 {
      DecimalParses(n / 10, max);
      DigitAppended(Decimal(n / 10), n % 10, max);
    } else {
      DigitAppended("", n, max);
      assert "" + [DigitChar(n)] == [DigitChar(n)];
    }
  }

  lemma PrintedNumberParses(n: nat, max: nat)
    requires n <= max
    ensures ParseUnsigned(Decimal(n), max) == Some(n)
  {
    DecimalIsDigits(n);
    DecimalParses(n, max);
  }

  lemma {:induction false} SplitNoColon(s: string)
    ensures NoColon(s) <==> Split(s) == [s]
    ensures NoColon(s) <==> |Split(s)| == 1
  {
    if s != "" {
      SplitNoColon(s[1..]);
      assert s == [s[0]] + s[1..];
      assert NoColon(s) <==> s[0] != ':' && NoColon(s[1..]);
    }
  }

  lemma {:induction false} SplitJoined(a: string, b: string)
    ensures Split(a + ":" + b) == Split(a) + Split(b)
  {
    if a == "" {
      assert (a + ":" + b)[1..] == b;
    } else {
      assert (a + ":" + b)[1..] == a[1..] + ":" + b;
      SplitJoined(a[1..], b);
    }
  }

  lemma {:induction false} TrimStartAppend(s: string, t: string)
    requires t != "" && !IsWhitespace(t[0])
    ensures TrimStart(s + t) == TrimStart(s) + t
  {
    if s != "" && IsWhitespace(s[0]) {
      assert (s + t)[1..] == s[1..] + t;
      TrimStartAppend(s[1..], t);
    } else if s == "" {
      assert s + t == t;
    }
  }

  lemma {:induction false} TrimStartNoColon(s: string)
    ensures NoColon(TrimStart(s)) <==> NoColon(s)
  {
    if s != "" && IsWhitespace(s[0]) {
      TrimStartNoColon(s[1..]);
      assert s == [s[0]] + s[1..];
    }
  }

  lemma {:induction false} TrimStartTwice(s: string)
    ensures TrimStart(TrimStart(s)) == TrimStart(s)
    ensures TrimStart(s) == s <==> s == "" || !IsWhitespace(s[0])
    ensures |TrimStart(s)| <= |s|
  {
    if s != "" && IsWhitespace(s[0]) { TrimStartTwice(s[1..]); }
  }

  lemma TailLayout(b: string, p: string, c: string)
    ensures b + (":" + p + ":" + c + "\n") == b + ":" + p + ":" + c + "\n"
    ensures c != "" ==> (b + ":" + p + ":" + c)[|b| + |p| + |c| + 1] == c[|c| - 1]
  {}

  /** What is left of a printed token once trimmed. */
  lemma PrintedTrims(t: Token)
    ensures Trim(Line(t)) == TrimStart(t.bootId) + ":" + Decimal(t.pid) + ":" + Decimal(t.createdAt)
  {
    var b, p, c := TrimStart(t.bootId), Decimal(t.pid), Decimal(t.createdAt);
    DecimalIsDigits(t.createdAt);
    var tail := ":" + p + ":" + c + "\n";
    assert !IsWhitespace(':') && !IsWhitespace(c[|c| - 1]);
    hide TrimStart, TrimEnd, Decimal, IsWhitespace;
    assert Line(t) == t.bootId + tail;
    TrimStartAppend(t.bootId, tail);
    TailLayout(b, p, c);
    hide *;
    TrimEndNewline(b + ":" + p + ":" + c);
  }

  lemma PrintedSplits(t: Token)
    ensures Split(Trim(Line(t))) == Split(TrimStart(t.bootId)) + [Decimal(t.pid), Decimal(t.createdAt)]
  {
    var b, p, c := TrimStart(t.bootId), Decimal(t.pid), Decimal(t.createdAt);
    PrintedTrims(t);
    DecimalIsDigits(t.pid);
    DecimalIsDigits(t.createdAt);
    SplitNoColon(p);
    SplitNoColon(c);
    hide *;
    SplitJoined(b + ":" + p, c);
    SplitJoined(b, p);
    assert Split(b) + [p] + [c] == Split(b) + [p, c];
  }

  lemma TrimEndNewline(s: string)
    requires s != "" && !IsWhitespace(s[|s| - 1])
    ensures TrimEnd(s + "\n") == s
  {
    assert (s + "\n")[..|s|] == s;
  }

  /** Decoding a printed token, in every case: the boot id comes back without its leading whitespace. */
  lemma DecodesPrinted(t: Token)
    ensures Decode(Encode(t)) ==
            if !NoColon(t.bootId) || Trim(t.bootId) == "" || t.pid == 0 then Err(Malformed)
            else Ok(t.(bootId := TrimStart(t.bootId)))
  {
    hide Split, Decimal, Line, ParseUnsigned, NoColon, TrimStart, TrimEnd;
    PrintedSplits(t);
    TrimStartNoColon(t.bootId);
    SplitNoColon(TrimStart(t.bootId));
    PrintedNumberParses(t.pid, U32_MAX);
    PrintedNumberParses(t.createdAt, U64_MAX);
    TrimStartTwice(t.bootId);
  }

  /** A token that survives printing: boot id not blank, without colon and leading whitespace, and a real pid. */
  predicate Printable(t: Token) {
    Trim(t.bootId) != "" && NoColon(t.bootId) && (t.bootId == "" || !IsWhitespace(t.bootId[0])) && t.pid != 0
  }

  lemma RoundTripExactly(t: Token)
    ensures Decode(Encode(t)) == Ok(t) <==> Printable(t)
  {
    hide Encode, Decode, TrimEnd, TrimStart;
    DecodesPrinted(t);
    TrimStartTwice(t.bootId);
  }

  lemma {:induction false} PiecesOfSplit(s: string)
    ensures forall i :: 0 <= i < |Split(s)| ==> NoColon(Split(s)[i])
    ensures Split(s)[0] <= s
  {
    if s != "" { PiecesOfSplit(s[1..]); }
  }

  lemma {:induction false} TrimEndIsPrefix(s: string)
    ensures TrimEnd(s) <= s
  {
    if s != "" && IsWhitespace(s[|s| - 1]) { TrimEndIsPrefix(s[..|s| - 1]); }
  }

  lemma {:induction false} BlankHasBlankHead(s: string)
    ensures TrimStart(s) == "" || !IsWhitespace(TrimStart(s)[0])
  {
    if s != "" && IsWhitespace(s[0]) { BlankHasBlankHead(s[1..]); }
  }

  /** Whatever text decodes, the token it gives prints to text that decodes to the same token. */
  lemma DecodedIsPrintable(p: Payload)
    requires Decode(p).Ok?
    ensures Printable(Decode(p).value)
    ensures Decode(Encode(Decode(p).value)) == Decode(p)
  {
    var t := Decode(p).value;
    var text := Trim(p.text);
    PiecesOfSplit(text);
    TrimEndIsPrefix(TrimStart(p.text));
    BlankHasBlankHead(p.text);
    hide Split, ParseUnsigned, TrimStart, TrimEnd, Encode;
    assert t.bootId <= TrimStart(p.text);
    assert t.bootId != "" ==> t.bootId[0] == TrimStart(p.text)[0];
    RoundTripExactly(t);
  }

  // ---- The grammar of a lock file -------------------------------------

  predicate AllWhitespace(s: string) {
    forall i :: 0 <= i < |s| ==> IsWhitespace(s[i])
  }

  lemma {:induction false} TrimStartSplits(s: string) returns (pre: string)
    ensures s == pre + TrimStart(s) && AllWhitespace(pre)
  {
    if s != "" && IsWhitespace(s[0]) {
      pre := TrimStartSplits(s[1..]);
      pre := [s[0]] + pre;
      assert s == [s[0]] + s[1..];
    } else {
      pre := "";
    }
  }

  lemma {:induction false} TrimEndSplits(s: string) returns (post: string)
    ensures s == TrimEnd(s) + post && AllWhitespace(post)
    ensures TrimEnd(s) == "" || !IsWhitespace(TrimEnd(s)[|TrimEnd(s)| - 1])
  {
    if s != "" && IsWhitespace(s[|s| - 1]) {
      var n := |s| - 1;
      post := TrimEndSplits(s[..n]);
      assert s == TrimEnd(s[..n]) + (post + [s[n]]);
      post := post + [s[n]];
    } else {
      post := "";
    }
  }

  /** Trimming takes exactly the whitespace at both ends away. */
  lemma TrimExactly(s: string) returns (pre: string, post: string)
    ensures s == pre + Trim(s) + post && AllWhitespace(pre) && AllWhitespace(post)
    ensures Trim(s) == "" || (!IsWhitespace(Trim(s)[0]) && !IsWhitespace(Trim(s)[|Trim(s)| - 1]))
  {
    pre := TrimStartSplits(s);
    post := TrimEndSplits(TrimStart(s));
    BlankHasBlankHead(s);
    hide TrimStart, TrimEnd, IsWhitespace;
    assert s == pre + (Trim(s) + post);
    assert Trim(s) != "" ==> Trim(s)[0] == TrimStart(s)[0];
  }

  function Joined(pieces: seq<string>): string
    requires pieces != []
  {
    if |pieces| == 1 then pieces[0] else pieces[0] + ":" + Joined(pieces[1..])
  }

  lemma {:induction false} SplitJoins(s: string)
    ensures Joined(Split(s)) == s
  {
    if s != "" {
      SplitJoins(s[1..]);
      var r := Split(s[1..]);
      assert s == [s[0]] + s[1..];
      if s[0] == ':' {
        assert Split(s)[1..] == r;
      } else {
        assert Split(s)[0] == [s[0]] + r[0] && Split(s)[1..] == r[1..];
      }
    }
  }

  lemma JoinedThree(x: string, y: string, z: string)
    ensures Joined([x, y, z]) == x + ":" + y + ":" + z
  {
    var two, three := [y, z], [x, y, z];
    assert three[1..] == two && two[1..] == [z];
    assert Joined(two) == y + ":" + Joined([z]) && Joined(three) == x + ":" + Joined(two);
    assert x + ":" + (y + ":" + z) == x + ":" + y + ":" + z;
  }

  /** Trimmed, the text is the token's boot id and two numbers, joined by colons. */
  predicate Spells(text: string, t: Token, a: string, b: string) {
    && Trim(text) == t.bootId + ":" + a + ":" + b && NoColon(t.bootId) && NoColon(a) && NoColon(b)
    && Trim(t.bootId) != "" && t.pid != 0
    && ParseUnsigned(a, U32_MAX) == Some(t.pid) && ParseUnsigned(b, U64_MAX) == Some(t.createdAt)
  }

  /** Which texts decode to which tokens. */
  lemma DecodesExactly(text: string, t: Token)
    ensures DecodeText(text) == Ok(t) <==> exists a, b :: Spells(text, t, a, b)
  {
    hide Split, Trim, NoColon, ParseUnsigned;
    if DecodeText(text) == Ok(t) {
      var parts := Split(Trim(text));
      SplitJoins(Trim(text));
      PiecesOfSplit(Trim(text));
      assert parts == [parts[0], parts[1], parts[2]];
      JoinedThree(parts[0], parts[1], parts[2]);
      assert Spells(text, t, parts[1], parts[2]);
    }
    if a, b :| Spells(text, t, a, b) {
      SplitJoined(t.bootId + ":" + a, b);
      SplitJoined(t.bootId, a);
      SplitNoColon(t.bootId);
      SplitNoColon(a);
      SplitNoColon(b);
      assert [t.bootId] + [a] + [b] == [t.bootId, a, b];
    }
  }

  // ---- Deciding a lock ------------------------------------------------

  datatype StaleReason = Rebooted | HolderGone

  datatype LockAction = AcquireFresh | ReclaimStale(reason: StaleReason, stale: Token) | AlreadyHeldBySelf

  function EvaluateLock(bootId: string, pid: U32, existing: Payload, alive: U32 -> bool): Result<LockAction, LockError> {
    if existing == Text("") then Ok(AcquireFresh)
    else
      match Decode(existing)
      case Err(e) => Err(e)
      case Ok(t) =>
        if t.bootId != bootId then Ok(ReclaimStale(Rebooted, t))
        else if !alive(t.pid) then Ok(ReclaimStale(HolderGone, t))
        else if t.pid == pid then Ok(AlreadyHeldBySelf)
        else Err(Contended(t.pid, t.bootId))
  }

  /**
   A lock written by any printable owner: re-entry for the live owner, contention for every other pid of
   the same boot while the owner lives, reclaim exactly when the boot differs or the owner is gone.
   */
  lemma WrittenLockDecides(owner: Token, bootId: string, pid: U32, alive: U32 -> bool)
    requires Printable(owner)
    ensures var r := EvaluateLock(bootId, pid, Encode(owner), alive);
            var binds := owner.bootId == bootId && alive(owner.pid);
            && (r == Ok(AlreadyHeldBySelf) <==> binds && pid == owner.pid)
            && (r == Err(Contended(owner.pid, owner.bootId)) <==> binds && pid != owner.pid)
            && ((r.Ok? && r.value.ReclaimStale?) <==> !binds)
            && (r.Ok? && r.value.ReclaimStale? ==>
                  r.value.stale == owner && (r.value.reason.Rebooted? <==> owner.bootId != bootId))
  {
    RoundTripExactly(owner);
    assert |Line(owner)| >= 2;
    hide Line, DecodeText;
  }

  /** Every other lock file: an empty one is free, one that does not decode is an error, any other is decided like its token. */
  lemma AnyLockDecides(p: Payload, bootId: string, pid: U32, alive: U32 -> bool)
    ensures var r := EvaluateLock(bootId, pid, p, alive);
            && (p == Text("") ==> r == Ok(AcquireFresh))
            && (p != Text("") && Decode(p).Err? ==> r == Err(Decode(p).error))
            && (p != Text("") && Decode(p).Ok? ==> r == EvaluateLock(bootId, pid, Encode(Decode(p).value), alive))
  {
    if p != Text("") && Decode(p).Ok? {
      DecodedIsPrintable(p);
      assert |Line(Decode(p).value)| >= 2;
      hide Line, Decode;
    }
  }

  /** The format on one token. */
  lemma FormatOfOneToken()
    ensures Line(Token("b", 42, 7)) == "b:42:7\n"
  {
    assert Decimal(42) == Decimal(4) + ['2'];
  }
}
