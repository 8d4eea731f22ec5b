/**
 File names: what is accepted, how a name gets a number when it is taken, and the search for a free one.
 A string is a sequence of code points, each of one to four bytes; `fold` is the lower-casing of one of them.
 */
module FileNames {
  import opened Options

  const MAX_NAME_BYTES := 255

  datatype Refusal = Required | NotValid | InvalidCharacters | BadEnding | Reserved | TooLong | SuffixTooLong | NoneFree

  datatype NameResult = Accepted(name: string) | Refused(reason: Refusal)

  // ---------- strings ----------

  function Width(c: char): (r: nat)
    ensures 1 <= r <= 4
  {
    var code := c as int;
    if code < 0x80 then 1 else if code < 0x800 then 2 else if code < 0x1_0000 then 3 else 4
  }

  function ByteLength(s: string): nat {
    if s == [] then 0 else Width(s[0]) + ByteLength(s[1..])
  }

  lemma {:induction false} ByteLengthJoins(a: string, b: string)
    ensures ByteLength(a + b) == ByteLength(a) + ByteLength(b)
  {
    if a == [] {
      assert a + b == b;
    } else {
      assert (a + b)[1..] == a[1..] + b;
      ByteLengthJoins(a[1..], b);
    }
  }

  predicate IsSpace(c: char) {
    var code := c as int;
    0x09 <= code <= 0x0D || code in {0x20, 0xA0, 0x1680, 0x2028, 0x2029, 0x202F, 0x205F, 0x3000, 0xFEFF}
    || 0x2000 <= code <= 0x200A
  }

  function TrimStart(s: string): string {
    if s != [] && IsSpace(s[0]) then TrimStart(s[1..]) else s
  }

  function TrimEnd(s: string): (r: string)
    ensures r <= s
    ensures s != [] && !IsSpace(s[0]) ==> r != []
    ensures r != [] ==> !IsSpace(r[|r| - 1])
  {
    if s != [] && IsSpace(s[|s| - 1]) then TrimEnd(s[..|s| - 1]) else s
  }

  function Trim(s: string): string {
    TrimEnd(TrimStart(s))
  }

  predicate Trimmed(s: string) {
    s != [] ==> !IsSpace(s[0]) && !IsSpace(s[|s| - 1])
  }

  lemma {:induction false} TrimTrims(s: string)
    ensures Trimmed(Trim(s))
  {
    if s != [] && IsSpace(s[0]) {
      TrimTrims(s[1..]);
    }
  }

  lemma TrimOf(s: string)
    ensures Trimmed(s) ==> Trim(s) == s
    ensures s != "" && !IsSpace(s[0]) && !IsSpace(s[|s| - 1]) ==> Trim([' '] + s) == s
  {
    assert ([' '] + s)[1..] == s;
  }

  /** The longest run of whole code points that fits into `max` bytes. */
  function PrefixFitting(s: string, max: nat): (r: string)
    ensures r <= s && ByteLength(r) <= max
    ensures |r| < |s| ==> ByteLength(r) + Width(s[|r|]) > max
  {
    if s == [] || Width(s[0]) > max then []
    else
      var rest := PrefixFitting(s[1..], max - Width(s[0]));
      assert ([s[0]] + rest)[1..] == rest;
      [s[0]] + rest
  }

  /** There is only one such prefix. */
  lemma {:induction false} PrefixFittingIs(s: string, max: nat, k: nat)
    requires k <= |s| && ByteLength(s[..k]) <= max
    requires k < |s| ==> ByteLength(s[..k]) + Width(s[k]) > max
    ensures PrefixFitting(s, max) == s[..k]
    decreases k
  {
    if k > 0 {
      assert s[..k][1..] == s[1..][..k - 1];
      PrefixFittingIs(s[1..], max - Width(s[0]), k - 1);
    }
  }

  method TruncateUtf8(value: string, maxBytes: nat) returns (result: string)
    ensures result == PrefixFitting(value, maxBytes)
  {
    result := "";
    var byteLength := 0;
    var i := 0;
    while i < |value|
      invariant 0 <= i <= |value| && result == value[..i]
      invariant byteLength == ByteLength(result) <= maxBytes
    {
      var characterBytes := Width(value[i]);
      if byteLength + characterBytes > maxBytes {
        PrefixFittingIs(value, maxBytes, i);
        return;
      }
      ByteLengthJoins(result, [value[i]]);
      assert value[..i + 1] == result + [value[i]];
      result := result + [value[i]];
      byteLength := byteLength + characterBytes;
      i := i + 1;
    }
    PrefixFittingIs(value, maxBytes, i);
  }

  function IndexOf(s: string, c: char): (i: int)
    ensures -1 <= i < |s|
    ensures forall j :: 0 <= j < (if i < 0 then |s| else i) ==> s[j] != c
    ensures i >= 0 ==> s[i] == c
  {
    if s == [] then -1
    else if s[0] == c then 0
    else
      var i := IndexOf(s[1..], c);
      if i < 0 then -1 else i + 1
  }

  function LastIndexOf(s: string, c: char): (i: int)
    ensures -1 <= i < |s|
    ensures i >= 0 ==> s[i] == c
    ensures forall j :: i < j < |s| ==> s[j] != c
  {
    if s == [] then -1
    else if s[|s| - 1] == c then |s| - 1
    else LastIndexOf(s[..|s| - 1], c)
  }

  // ---------- accepted names ----------

  function FoldAll(fold: char -> char, s: string): (r: string)
    ensures |r| == |s| && forall i :: 0 <= i < |s| ==> r[i] == fold(s[i])
  {
    seq(|s|, i requires 0 <= i < |s| => fold(s[i]))
  }

  /** Two names conflict when their keys are the same. */
  function ConflictKey(fold: char -> char, name: string): string {
    FoldAll(fold, Trim(name))
  }

  predicate IsMark(c: char) {
    c in {' ', '(', ')', '.'} || '0' <= c <= '9'
  }

  /** Marks stay as they are, and nothing else turns into one. */
  ghost predicate KeepsMarks(fold: char -> char) {
    forall c :: IsMark(c) || IsMark(fold(c)) ==> fold(c) == c
  }

  predicate IsForbidden(c: char) {
    c in {'<', '>', ':', '"', '/', '\\', '|', '?', '*'} || c as int < 32 || 127 <= c as int <= 159
  }

  predicate HasForbidden(s: string) {
    exists i :: 0 <= i < |s| && IsForbidden(s[i])
  }

  predicate IsReserved(base: string) {
    || base in {"aux", "con", "nul", "prn"}
    || (|base| == 4 && base[..3] in {"com", "lpt"}
        && ('1' <= base[3] <= '9' || base[3] in {'\U{B9}', '\U{B2}', '\U{B3}'}))
  }

  function UpToFirstDot(name: string): string {
    if IndexOf(name, '.') < 0 then name else name[..IndexOf(name, '.')]
  }

  function NameProblem(fold: char -> char, name: string): Option<Refusal> {
    if name == "" then Some(Required)
    else if name == "." || name == ".." then Some(NotValid)
    else if HasForbidden(name) then Some(InvalidCharacters)
    else if name[|name| - 1] in {'.', ' '} then Some(BadEnding)
    else if IsReserved(ConflictKey(fold, UpToFirstDot(name))) then Some(Reserved)
    else if ByteLength(name) > MAX_NAME_BYTES then Some(TooLong)
    else None
  }

  function Normalize(fold: char -> char, value: string): NameResult {
    var name := Trim(value);
    if NameProblem(fold, name).Some? then Refused(NameProblem(fold, name).value) else Accepted(name)
  }

  predicate IsName(fold: char -> char, name: string) {
    Trimmed(name) && NameProblem(fold, name).None?
  }

  /** Normalising is idempotent: what comes out is a name, and a name is left as it is. */
  lemma NormalizeGivesNames(fold: char -> char, value: string)
    ensures Normalize(fold, value).Accepted? ==> IsName(fold, Normalize(fold, value).name)
    ensures IsName(fold, value) ==> Normalize(fold, value) == Accepted(value)
  {
    var name := Trim(value);
    TrimTrims(value);
    if Trimmed(value) {
      TrimOf(value);
      assert name == value;
    }
  }

  // ---------- a numbered name ----------

  function Digits(n: nat): (r: string)
    ensures r != [] && forall i :: 0 <= i < |r| ==> '0' <= r[i] <= '9'
    ensures |r| == 1 <==> n < 10
    ensures n < 100 ==> |r| <= 2
    ensures n < 1000 ==> |r| <= 3
    ensures n < 10_000 ==> |r| <= 4
  {
    if n < 10 then [Digit(n)] else Digits(n / 10) + [Digit(n % 10)]
  }

  function Digit(d: nat): (c: char)
    requires d < 10
    ensures '0' <= c <= '9'
  {
    ('0' as int + d) as char
  }

  lemma {:induction false} DigitsInjective(m: nat, n: nat)
    requires Digits(m) == Digits(n)
    ensures m == n
  {
    var a, b := Digits(m), Digits(n);
    if m >= 10 && n >= 10 {
      assert a[..|a| - 1] == Digits(m / 10) && b[..|b| - 1] == Digits(n / 10);
      DigitsInjective(m / 10, n / 10);
      assert a[|a| - 1] == Digit(m % 10) && b[|b| - 1] == Digit(n % 10);
    }
  }

  function Numbered(n: nat): string {
    "(" + Digits(n) + ")"
  }

  function NumberSuffix(n: nat): string {
    " " + Numbered(n)
  }

  function ExtensionAt(name: string): (i: nat)
    ensures i <= |name|
  {
    var dot := LastIndexOf(name, '.');
    if dot > 0 && dot < |name| - 1 then dot else |name|
  }

  function Extension(name: string): string {
    name[ExtensionAt(name)..]
  }

  /** The name is shortened so that the suffix fits; if the extension leaves no room, it goes. */
  function WithSuffix(name: string, suffix: string): string
    requires ByteLength(suffix) < MAX_NAME_BYTES
  {
    var baseByteLimit := MAX_NAME_BYTES - (ByteLength(suffix) + ByteLength(Extension(name)));
    if baseByteLimit < 1 then TrimEnd(PrefixFitting(name, MAX_NAME_BYTES - ByteLength(suffix))) + suffix
    else PrefixFitting(name[..ExtensionAt(name)], baseByteLimit) + suffix + Extension(name)
  }

  function Suffixed(fold: char -> char, value: string, suffix: string): NameResult {
    var normalized := Normalize(fold, value);
    if normalized.Refused? then normalized
    else if ByteLength(suffix) >= MAX_NAME_BYTES then Refused(SuffixTooLong)
    else Normalize(fold, WithSuffix(normalized.name, suffix))
  }

  // ---------- numbered names are names ----------

  function Head(cut: string): string {
    if cut == "" then "" else cut + " "
  }

  /** What a cut base, a number and an extension come to once the blanks around them are gone. */
  function Joined(cut: string, n: nat, extension: string): string {
    Head(cut) + Numbered(n) + extension
  }

  lemma FirstDot(s: string, i: nat)
    requires i < |s| && s[i] == '.' && forall j :: 0 <= j < i ==> s[j] != '.'
    ensures UpToFirstDot(s) == s[..i]
  {
  }

  /** No reserved name ends with a bracket. */
  lemma NumberedIsNotReserved(fold: char -> char, head: string, n: nat)
    requires KeepsMarks(fold) && head + Numbered(n) != ""
    requires head == "" || !IsSpace(head[0])
    ensures !IsReserved(ConflictKey(fold, head + Numbered(n)))
  {
    var s := head + Numbered(n);
    assert s[|s| - 1] == ')';
    assert s[0] == if head == "" then '(' else head[0];
    TrimOf(s);
    assert IsMark(')');
    var key := ConflictKey(fold, s);
    assert key[|key| - 1] == ')';
  }

  /** `name` ends with the extension, and `cut` is some beginning of it. */
  predicate CanJoin(name: string, cut: string, extension: string) {
    && cut <= name
    && (extension != "" ==>
          |extension| > 1 && extension[0] == '.' && |extension| <= |name| && extension == name[|name| - |extension|..])
  }

  /** A name, apart from its length and from being reserved. */
  predicate IsPlain(name: string) {
    name != "" && Trimmed(name) && !HasForbidden(name) && name[|name| - 1] != '.'
  }

  lemma NoDotInNumbered(cut: string, n: nat, extension: string)
    requires '.' !in cut && (extension != "" ==> extension[0] == '.')
    ensures UpToFirstDot(Joined(cut, n, extension)) == Head(cut) + Numbered(n)
  {
    var r, numbered := Joined(cut, n, extension), Head(cut) + Numbered(n);
    assert r == numbered + extension;
    forall j | 0 <= j < |numbered| ensures numbered[j] != '.' {
      if j < |cut| {
        assert numbered[j] == cut[j];
      }
    }
    assert r[..|numbered|] == numbered;
    if extension != "" {
      FirstDot(r, |numbered|);
    }
  }

  lemma SameFirstDot(a: string, b: string, cut: string)
    requires cut <= a && cut <= b && '.' in cut
    ensures UpToFirstDot(a) == UpToFirstDot(b)
  {
    var dot := IndexOf(cut, '.');
    var i :| 0 <= i < |cut| && cut[i] == '.';
    FirstDot(a, dot);
    FirstDot(b, dot);
    assert a[..dot] == cut[..dot] == b[..dot];
  }

  lemma JoinedIsNotReserved(fold: char -> char, name: string, cut: string, n: nat, extension: string)
    requires KeepsMarks(fold) && CanJoin(name, cut, extension) && IsPlain(name)
    requires !IsReserved(ConflictKey(fold, UpToFirstDot(name)))
    ensures !IsReserved(ConflictKey(fold, UpToFirstDot(Joined(cut, n, extension))))
  {
    if '.' in cut {
      SameFirstDot(Joined(cut, n, extension), name, cut);
    } else {
      NoDotInNumbered(cut, n, extension);
      NumberedIsNotReserved(fold, Head(cut), n);
    }
  }

  lemma NothingForbidden(name: string, cut: string, n: nat, extension: string)
    requires CanJoin(name, cut, extension) && !HasForbidden(name)
    ensures !HasForbidden(Joined(cut, n, extension))
  {
    var r := Joined(cut, n, extension);
    forall i | 0 <= i < |r| ensures !IsForbidden(r[i]) {
      if i < |cut| {
        assert r[i] == name[i];
      } else if i >= |r| - |extension| {
        assert r[i] == name[|name| - |r| + i];
      }
    }
  }

  lemma JoinedIsPlain(name: string, cut: string, n: nat, extension: string)
    requires CanJoin(name, cut, extension) && IsPlain(name)
    ensures IsPlain(Joined(cut, n, extension)) && |Joined(cut, n, extension)| > 2
  {
    var r := Joined(cut, n, extension);
    NothingForbidden(name, cut, n, extension);
    assert r[0] == if cut == "" then '(' else name[0];
    assert r[|r| - 1] == if extension == "" then ')' else name[|name| - 1];
  }

  lemma PlainIsName(fold: char -> char, name: string)
    requires IsPlain(name) && |name| > 2 && ByteLength(name) <= MAX_NAME_BYTES
    requires !IsReserved(ConflictKey(fold, UpToFirstDot(name)))
    ensures IsName(fold, name)
  {
  }

  lemma JoinedIsName(fold: char -> char, name: string, cut: string, n: nat, extension: string)
    requires KeepsMarks(fold) && CanJoin(name, cut, extension) && IsName(fold, name)
    requires ByteLength(cut + NumberSuffix(n) + extension) <= MAX_NAME_BYTES
    ensures IsName(fold, Joined(cut, n, extension))
    ensures Normalize(fold, cut + NumberSuffix(n) + extension) == Accepted(Joined(cut, n, extension))
  {
    var r := Joined(cut, n, extension);
    JoinedIsPlain(name, cut, n, extension);
    JoinedIsNotReserved(fold, name, cut, n, extension);
    RawTrimsToJoined(cut, n, extension);
    PlainIsName(fold, r);
  }

  lemma RawTrimsToJoined(cut: string, n: nat, extension: string)
    requires IsPlain(Joined(cut, n, extension))
    ensures Trim(cut + NumberSuffix(n) + extension) == Joined(cut, n, extension)
    ensures ByteLength(Joined(cut, n, extension)) <= ByteLength(cut + NumberSuffix(n) + extension)
  {
    var r, raw := Joined(cut, n, extension), cut + NumberSuffix(n) + extension;
    assert raw == if cut == "" then [' '] + r else r;
    ByteLengthJoins([' '], r);
    TrimOf(r);
  }

  lemma {:induction false} OneByteEach(s: string)
    requires forall i :: 0 <= i < |s| ==> s[i] as int < 0x80
    ensures ByteLength(s) == |s|
  {
    if s != "" {
      OneByteEach(s[1..]);
    }
  }

  function SuffixBytes(n: nat): nat {
    3 + |Digits(n)|
  }

  /** The extension is kept when it leaves room for the number and one byte of the base. */
  predicate KeepsExtension(name: string, n: nat) {
    ByteLength(Extension(name)) + SuffixBytes(n) < MAX_NAME_BYTES
  }

  function CutFor(name: string, n: nat): string
    requires n < 10_000
  {
    if KeepsExtension(name, n)
    then PrefixFitting(name[..ExtensionAt(name)], MAX_NAME_BYTES - SuffixBytes(n) - ByteLength(Extension(name)))
    else TrimEnd(PrefixFitting(name, MAX_NAME_BYTES - SuffixBytes(n)))
  }

  function ExtensionFor(name: string, n: nat): string {
    if KeepsExtension(name, n) then Extension(name) else ""
  }

  lemma SuffixBytesCounted(n: nat)
    ensures ByteLength(NumberSuffix(n)) == SuffixBytes(n)
  {
    OneByteEach(NumberSuffix(n));
  }

  lemma ExtensionJoins(name: string, cut: string)
    requires cut <= name && Trimmed(name)
    ensures CanJoin(name, cut, "") && CanJoin(name, cut, Extension(name))
  {
  }

  lemma SuffixedUnfolds(name: string, n: nat)
    requires n < 10_000
    ensures ByteLength(NumberSuffix(n)) < MAX_NAME_BYTES
    ensures WithSuffix(name, NumberSuffix(n)) == CutFor(name, n) + NumberSuffix(n) + ExtensionFor(name, n)
  {
    SuffixBytesCounted(n);
    var cut, suffix := CutFor(name, n), NumberSuffix(n);
    if !KeepsExtension(name, n) {
      assert WithSuffix(name, suffix) == cut + suffix;
      assert cut + suffix + "" == cut + suffix;
    }
  }

  lemma CutFits(name: string, n: nat)
    requires n < 10_000
    ensures CutFor(name, n) <= name
    ensures ByteLength(CutFor(name, n) + NumberSuffix(n) + ExtensionFor(name, n)) <= MAX_NAME_BYTES
  {
    SuffixBytesCounted(n);
    ByteLengthJoins(CutFor(name, n), NumberSuffix(n));
    ByteLengthJoins(CutFor(name, n) + NumberSuffix(n), ExtensionFor(name, n));
    TrimEndShortens(PrefixFitting(name, MAX_NAME_BYTES - SuffixBytes(n)));
  }

  lemma NumberIsAccepted(fold: char -> char, name: string, cut: string, n: nat, extension: string)
    requires KeepsMarks(fold) && CanJoin(name, cut, extension) && IsName(fold, name)
    requires ByteLength(NumberSuffix(n)) < MAX_NAME_BYTES
    requires ByteLength(cut + NumberSuffix(n) + extension) <= MAX_NAME_BYTES
    requires WithSuffix(name, NumberSuffix(n)) == cut + NumberSuffix(n) + extension
    ensures Suffixed(fold, name, NumberSuffix(n)) == Accepted(Joined(cut, n, extension))
    ensures IsName(fold, Joined(cut, n, extension)) && ByteLength(Joined(cut, n, extension)) <= MAX_NAME_BYTES
  {
    NormalizeGivesNames(fold, name);
    JoinedIsName(fold, name, cut, n, extension);
  }

  /**
   A numbered name is a name again, of at most 255 bytes: a beginning of the old one, cut between
   code points, then the number, then the extension if there is room for it.
   */
  lemma NumberedNameIsName(fold: char -> char, name: string, n: nat)
    requires KeepsMarks(fold) && IsName(fold, name) && n < 10_000
    ensures Suffixed(fold, name, NumberSuffix(n)) == Accepted(Joined(CutFor(name, n), n, ExtensionFor(name, n)))
    ensures CutFor(name, n) <= name
    ensures IsName(fold, Joined(CutFor(name, n), n, ExtensionFor(name, n)))
    ensures ByteLength(Joined(CutFor(name, n), n, ExtensionFor(name, n))) <= MAX_NAME_BYTES
  {
    SuffixedUnfolds(name, n);
    CutFits(name, n);
    ExtensionJoins(name, CutFor(name, n));
    NumberIsAccepted(fold, name, CutFor(name, n), n, ExtensionFor(name, n));
  }

  lemma {:induction false} TrimEndShortens(s: string)
    ensures ByteLength(TrimEnd(s)) <= ByteLength(s)
  {
    var r := TrimEnd(s);
    ByteLengthJoins(r, s[|r|..]);
    assert r + s[|r|..] == s;
  }

  // ---------- different numbers give different names ----------

  /** Where the number stands, counted from the front. */
  lemma NumberStands(fold: char -> char, a: string, n: nat, extension: string, end: nat)
    requires KeepsMarks(fold) && end == |a + Numbered(n)| - 1
    ensures var key, l := FoldAll(fold, a + Numbered(n) + extension), |Digits(n)|;
      && end - l - 1 >= 0 && key[end - l - 1] == '('
      && (forall p :: end - l <= p < end ==> key[p] != '(')
      && key[end - l..end] == Digits(n)
  {
    var s, l := a + Numbered(n) + extension, |Digits(n)|;
    assert s[end - l - 1] == '(' && IsMark('(');
    forall p | end - l <= p < end ensures fold(s[p]) == Digits(n)[p - end + l] {
      assert s[p] == Digits(n)[p - end + l];
      assert IsMark(s[p]);
    }
  }

  lemma SameKeySameNumber(fold: char -> char, a: string, m: nat, b: string, n: nat, extension: string)
    requires KeepsMarks(fold)
    requires FoldAll(fold, a + Numbered(m) + extension) == FoldAll(fold, b + Numbered(n) + extension)
    ensures m == n
  {
    var key := FoldAll(fold, a + Numbered(m) + extension);
    var end := |key| - |extension| - 1;
    NumberStands(fold, a, m, extension, end);
    NumberStands(fold, b, n, extension, end);
    DigitsInjective(m, n);
  }

  function Candidate(fold: char -> char, name: string, n: nat): string {
    var r := Suffixed(fold, name, NumberSuffix(n));
    if r.Accepted? then r.name else ""
  }

  function CandidateKey(fold: char -> char, name: string, n: nat): string {
    ConflictKey(fold, Candidate(fold, name, n))
  }

  lemma CandidateIs(fold: char -> char, name: string, n: nat)
    requires KeepsMarks(fold) && IsName(fold, name) && n < 10_000
    ensures Candidate(fold, name, n) == Joined(CutFor(name, n), n, ExtensionFor(name, n))
  {
    NumberedNameIsName(fold, name, n);
  }

  /** Candidates that treat the extension alike never conflict. */
  lemma CandidatesDiffer(fold: char -> char, name: string, m: nat, n: nat)
    requires KeepsMarks(fold) && IsName(fold, name) && m < 10_000 && n < 10_000
    requires KeepsExtension(name, m) <==> KeepsExtension(name, n)
    requires CandidateKey(fold, name, m) == CandidateKey(fold, name, n)
    ensures m == n
  {
    NumberedNameIsName(fold, name, m);
    NumberedNameIsName(fold, name, n);
    TrimOf(Candidate(fold, name, m));
    TrimOf(Candidate(fold, name, n));
    SameKeySameNumber(fold, Head(CutFor(name, m)), m, Head(CutFor(name, n)), n, ExtensionFor(name, m));
  }
}
