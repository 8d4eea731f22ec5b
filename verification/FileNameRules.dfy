/**
 The rules for names, said once more without the functions that apply them: bytes by the encoding itself, blanks and
 forbidden characters one by one, and what is left of a name.
 */
module FileNameRules {
  import opened Options
  import opened FileNames
  import opened FileNameSearch

  // ---------- bytes ----------

  /** The UTF-8 form of a code point, section 3 of RFC 3629. */
  function Encoded(c: char): seq<int> {
    var code := c as int;
    if code <= 0x7F then [code]
    else if code <= 0x7FF then [0xC0 + code / 0x40, 0x80 + code % 0x40]
    else if code <= 0xFFFF then [0xE0 + code / 0x1000, 0x80 + code / 0x40 % 0x40, 0x80 + code % 0x40]
    else [0xF0 + code / 0x4_0000, 0x80 + code / 0x1000 % 0x40, 0x80 + code / 0x40 % 0x40, 0x80 + code % 0x40]
  }

  predicate IsTail(b: int) {
    0x80 <= b <= 0xBF
  }

  /** The byte sequences that section 4 of RFC 3629 allows. */
  predicate IsUtf8(b: seq<int>) {
    if |b| == 1 then 0 <= b[0] <= 0x7F
    else if |b| == 2 then 0xC2 <= b[0] <= 0xDF && IsTail(b[1])
    else if |b| == 3 then
      && 0xE0 <= b[0] <= 0xEF && IsTail(b[1]) && IsTail(b[2])
      && (b[0] == 0xE0 ==> b[1] >= 0xA0) && (b[0] == 0xED ==> b[1] <= 0x9F)
    else
      && |b| == 4 && 0xF0 <= b[0] <= 0xF4 && IsTail(b[1]) && IsTail(b[2]) && IsTail(b[3])
      && (b[0] == 0xF0 ==> b[1] >= 0x90) && (b[0] == 0xF4 ==> b[1] <= 0x8F)
  }

  function Decoded(b: seq<int>): int
    requires IsUtf8(b)
  {
    if |b| == 1 then b[0]
    else if |b| == 2 then (b[0] - 0xC0) * 0x40 + b[1] - 0x80
    else if |b| == 3 then ((b[0] - 0xE0) * 0x40 + b[1] - 0x80) * 0x40 + b[2] - 0x80
    else (((b[0] - 0xF0) * 0x40 + b[1] - 0x80) * 0x40 + b[2] - 0x80) * 0x40 + b[3] - 0x80
  }

  /** The width of a code point is the number of bytes that a decoder reads it back from. */
  lemma WidthIsEncoded(c: char)
    ensures IsUtf8(Encoded(c)) && Decoded(Encoded(c)) == c as int && |Encoded(c)| == Width(c)
  {
    var code := c as int;
    if 0x7F < code <= 0x7FF {
      Sextets(code);
    } else if 0x7FF < code <= 0xFFFF {
      Sextets(code);
      Sextets(code / 0x40);
      assert code / 0x1000 == code / 0x40 / 0x40;
    } else if 0xFFFF < code {
      Sextets(code);
      Sextets(code / 0x40);
      Sextets(code / 0x1000);
      assert code / 0x1000 == code / 0x40 / 0x40 && code / 0x4_0000 == code / 0x1000 / 0x40;
    }
  }

  lemma Sextets(n: nat)
    ensures n == n / 0x40 * 0x40 + n % 0x40 && 0 <= n % 0x40 < 0x40
  {
  }

  function EncodedAll(s: string): seq<int> {
    if s == "" then [] else Encoded(s[0]) + EncodedAll(s[1..])
  }

  lemma {:induction false} ByteLengthIsEncoded(s: string)
    ensures ByteLength(s) == |EncodedAll(s)|
  {
    if s != "" {
      WidthIsEncoded(s[0]);
      ByteLengthIsEncoded(s[1..]);
    }
  }

  // ---------- blanks ----------

  lemma SpacesAre(c: char)
    ensures IsSpace(c) <==>
      c as int in {0x9, 0xA, 0xB, 0xC, 0xD, 0x20, 0xA0, 0x1680, 0x2000, 0x2001, 0x2002, 0x2003, 0x2004, 0x2005, 0x2006, 0x2007,
                   0x2008, 0x2009, 0x200A, 0x2028, 0x2029, 0x202F, 0x205F, 0x3000, 0xFEFF}
  {
  }

  predicate AllSpace(s: string) {
    forall i :: 0 <= i < |s| ==> IsSpace(s[i])
  }

  /** Nothing but blanks goes, and all blanks at both ends do. */
  lemma {:induction false} TrimIs(s: string) returns (front: string, back: string)
    ensures s == front + Trim(s) + back && AllSpace(front) && AllSpace(back)
    ensures Trim(s) != "" ==> !IsSpace(Trim(s)[0]) && !IsSpace(Trim(s)[|Trim(s)| - 1])
    decreases |s|
  {
    TrimTrims(s);
    if s != "" && IsSpace(s[0]) {
      front, back := TrimIs(s[1..]);
      front := [s[0]] + front;
    } else {
      front := "";
      back := TrimEndIs(s);
    }
  }

  lemma {:induction false} TrimEndIs(s: string) returns (back: string)
    ensures s == TrimEnd(s) + back && AllSpace(back)
    decreases |s|
  {
    if s != "" && IsSpace(s[|s| - 1]) {
      back := TrimEndIs(s[..|s| - 1]);
      back := back + [s[|s| - 1]];
    } else {
      back := "";
    }
  }

  /** Two names have one key exactly when they have the same letters, upper and lower case aside, between their blanks. */
  lemma KeysAreOneIff(fold: char -> char, a: string, b: string)
    ensures ConflictKey(fold, a) == ConflictKey(fold, b) <==>
      |Trim(a)| == |Trim(b)| && forall i :: 0 <= i < |Trim(a)| ==> fold(Trim(a)[i]) == fold(Trim(b)[i])
  {
    var k, l := ConflictKey(fold, a), ConflictKey(fold, b);
    assert |k| == |Trim(a)| && |l| == |Trim(b)|;
    if k == l {
      forall i | 0 <= i < |Trim(a)| ensures fold(Trim(a)[i]) == fold(Trim(b)[i]) {
        assert k[i] == l[i];
      }
    }
  }

  // ---------- what is accepted ----------

  predicate IsDeviceName(s: string) {
    || s in {"aux", "con", "nul", "prn"}
    || (exists d :: d in "123456789\U{B9}\U{B2}\U{B3}" && (s == "com" + [d] || s == "lpt" + [d]))
  }

  lemma ReservedIs(base: string)
    ensures IsReserved(base) <==> IsDeviceName(base)
  {
    if |base| == 4 {
      assert base == base[..3] + [base[3]];
    }
    if d :| d in "123456789\U{B9}\U{B2}\U{B3}" && (base == "com" + [d] || base == "lpt" + [d]) {
      assert base[..3] == "com" || base[..3] == "lpt";
    }
  }

  predicate MayStand(c: char) {
    var code := c as int;
    && 0x20 <= code && !(0x7F <= code <= 0x9F)
    && c !in ['<', '>', ':', '"', '/', '\\', '|', '?', '*']
  }

  /** `first` is what comes before the first dot. */
  predicate EndsAtDot(name: string, first: string) {
    first <= name && (forall i :: 0 <= i < |first| ==> first[i] != '.') && (|first| < |name| ==> name[|first|] == '.')
  }

  lemma FirstIs(name: string, first: string)
    requires EndsAtDot(name, first)
    ensures UpToFirstDot(name) == first
  {
    if |first| < |name| {
      FirstDot(name, |first|);
    } else {
      assert first == name;
    }
  }

  lemma MayStandIs(name: string)
    ensures HasForbidden(name) <==> exists i :: 0 <= i < |name| && !MayStand(name[i])
  {
    if i :| 0 <= i < |name| && !MayStand(name[i]) {
      assert IsForbidden(name[i]);
    }
  }

  /** Which values are accepted, and as what. */
  lemma AcceptedIff(fold: char -> char, value: string, first: string)
    requires EndsAtDot(Trim(value), first)
    ensures var name, r := Trim(value), Normalize(fold, value);
      && (r.Accepted? <==>
            && name != "" && name != "." && name != ".." && (forall i :: 0 <= i < |name| ==> MayStand(name[i]))
            && name[|name| - 1] != '.' && !IsDeviceName(ConflictKey(fold, first)) && |EncodedAll(name)| <= 255)
      && (r.Accepted? ==> r.name == name)
  {
    var name := Trim(value);
    FirstIs(name, first);
    MayStandIs(name);
    ReservedIs(ConflictKey(fold, first));
    ByteLengthIsEncoded(name);
    TrimTrims(value);
    SpacesAre(' ');
  }

  /** Why a value is refused: the first rule that it breaks. */
  lemma RefusedFor(fold: char -> char, value: string, first: string)
    requires EndsAtDot(Trim(value), first) && Normalize(fold, value).Refused?
    ensures var name, reason := Trim(value), Normalize(fold, value).reason;
      reason ==
        if name == "" then Required
        else if name == "." || name == ".." then NotValid
        else if exists i :: 0 <= i < |name| && !MayStand(name[i]) then InvalidCharacters
        else if name[|name| - 1] == '.' then BadEnding
        else if IsDeviceName(ConflictKey(fold, first)) then Reserved
        else TooLong
  {
    var name := Trim(value);
    FirstIs(name, first);
    MayStandIs(name);
    ReservedIs(ConflictKey(fold, first));
    TrimTrims(value);
    SpacesAre(' ');
  }

  // ---------- numbers and extensions ----------

  /** The extension begins at the last dot, unless that is the first or the last character. */
  lemma ExtensionIs(name: string, dot: int)
    requires -1 <= dot < |name| && (dot >= 0 ==> name[dot] == '.') && forall j :: dot < j < |name| ==> name[j] != '.'
    ensures Extension(name) == if 0 < dot < |name| - 1 then name[dot..] else ""
  {
    assert LastIndexOf(name, '.') == dot;
  }

  function ValueOf(digits: string): int {
    if digits == "" then 0 else ValueOf(digits[..|digits| - 1]) * 10 + (digits[|digits| - 1] as int - '0' as int)
  }

  /** A number is written in decimal, without a leading zero. */
  lemma {:induction false} DigitsAreDecimal(n: nat)
    ensures ValueOf(Digits(n)) == n && (n > 0 ==> Digits(n)[0] != '0')
  {
    var d := Digits(n);
    if n < 10 {
      assert d[..0] == "";
    } else {
      DigitsAreDecimal(n / 10);
      assert d[..|d| - 1] == Digits(n / 10) && d[|d| - 1] == Digit(n % 10);
    }
  }

  /** `s[..k]` is the longest beginning of whole code points that has `room` bytes at most. */
  predicate LongestFits(s: string, k: nat, room: int) {
    k <= |s| && |EncodedAll(s[..k])| <= room && (k < |s| ==> |EncodedAll(s[..k])| + |Encoded(s[k])| > room)
  }

  lemma {:induction false} CutIsLongest(s: string, room: nat)
    ensures LongestFits(s, |PrefixFitting(s, room)|, room) && PrefixFitting(s, room) == s[..|PrefixFitting(s, room)|]
  {
    var r := PrefixFitting(s, room);
    var k := |r|;
    assert s[..k] == r;
    ByteLengthIsEncoded(r);
    if k < |s| {
      WidthIsEncoded(s[k]);
    }
  }

  /** What is kept of the base, a blank unless that is nothing, the number in brackets, and the extension. */
  function Spelt(cut: string, n: nat, extension: string): string {
    (if cut == "" then "" else cut + " ") + "(" + Digits(n) + ")" + extension
  }

  lemma {:induction false} JoinedIsSpelt(cut: string, n: nat, extension: string)
    ensures Joined(cut, n, extension) == Spelt(cut, n, extension)
  {
    var head := Head(cut);
    assert head + ("(" + Digits(n) + ")") == head + "(" + Digits(n) + ")";
  }

  /** As long as there is room, the name keeps its extension, and before it the longest beginning that fits beside the number. */
  lemma {:induction false} NumberedNameKeepsBase(fold: char -> char, name: string, n: nat) returns (k: nat)
    requires KeepsMarks(fold) && IsName(fold, name) && n < 10_000
    requires |EncodedAll(Extension(name))| + |Digits(n)| + 3 < 255
    ensures var base := name[..|name| - |Extension(name)|];
      && LongestFits(base, k, 255 - |EncodedAll(Extension(name))| - |Digits(n)| - 3)
      && Candidate(fold, name, n) == Spelt(base[..k], n, Extension(name))
  {
    RoomIs(name, n);
    k := KeptBase(name, n);
    CandidateIs(fold, name, n);
  }

  lemma {:induction false} KeptBase(name: string, n: nat) returns (k: nat)
    requires n < 10_000 && KeepsExtension(name, n)
    ensures LongestFits(Base(name), k, RoomFor(name, n))
    ensures Joined(CutFor(name, n), n, ExtensionFor(name, n)) == Spelt(Base(name)[..k], n, Extension(name))
  {
    KeepingCuts(name, n);
    CutIsLongest(Base(name), RoomFor(name, n));
    JoinedIsSpelt(CutFor(name, n), n, Extension(name));
    k := |CutFor(name, n)|;
  }

  lemma {:induction false} RoomIs(name: string, n: nat)
    ensures KeepsExtension(name, n) <==> |EncodedAll(Extension(name))| + |Digits(n)| + 3 < 255
    ensures RoomFor(name, n) == 255 - |EncodedAll(Extension(name))| - |Digits(n)| - 3
    ensures Base(name) == name[..|name| - |Extension(name)|]
  {
    ByteLengthIsEncoded(Extension(name));
  }

  /** Without that room the extension is dropped, and the longest beginning of the name that fits is kept, without blanks at its end. */
  lemma {:induction false} NumberedNameDropsExtension(fold: char -> char, name: string, n: nat) returns (k: nat)
    requires KeepsMarks(fold) && IsName(fold, name) && n < 10_000
    requires |EncodedAll(Extension(name))| + |Digits(n)| + 3 >= 255
    ensures LongestFits(name, k, 255 - |Digits(n)| - 3) && Candidate(fold, name, n) == Spelt(TrimEnd(name[..k]), n, "")
  {
    RoomIs(name, n);
    k := KeptName(name, n);
    CandidateIs(fold, name, n);
  }

  lemma {:induction false} KeptName(name: string, n: nat) returns (k: nat)
    requires n < 10_000 && !KeepsExtension(name, n)
    ensures LongestFits(name, k, 255 - |Digits(n)| - 3)
    ensures Joined(CutFor(name, n), n, ExtensionFor(name, n)) == Spelt(TrimEnd(name[..k]), n, "")
  {
    k := Longest(name, MAX_NAME_BYTES - SuffixBytes(n));
    DroppedIsSpelt(name, n, name[..k]);
  }

  lemma {:induction false} DroppedIsSpelt(name: string, n: nat, whole: string)
    requires n < 10_000 && !KeepsExtension(name, n) && PrefixFitting(name, MAX_NAME_BYTES - SuffixBytes(n)) == whole
    ensures Joined(CutFor(name, n), n, ExtensionFor(name, n)) == Spelt(TrimEnd(whole), n, "")
  {
    DroppingIs(name, n);
    JoinedIsSpelt(TrimEnd(whole), n, "");
  }

  lemma {:induction false} Longest(s: string, room: nat) returns (k: nat)
    ensures LongestFits(s, k, room) && PrefixFitting(s, room) == s[..k]
  {
    CutIsLongest(s, room);
    k := |PrefixFitting(s, room)|;
  }
}
