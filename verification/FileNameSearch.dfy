/**
 Numbered names that meet, and the search for a free one. Two numbers of one name conflict only if one of them
 keeps the extension and the other drops it, and if both give back the name they started from.
 */
module FileNameSearch {
  import opened Options
  import opened FileNames

  const FIRST_NUMBER := 2
  const NUMBER_LIMIT := 10_000

  // ---------- when two numbers meet ----------

  predicate EndsWith(s: string, t: string) {
    |t| <= |s| && s[|s| - |t|..] == t
  }

  function Base(name: string): string {
    name[..ExtensionAt(name)]
  }

  /** The name has 255 bytes and carries both numbers already: one before the extension, and one at its end. */
  predicate Meets(name: string, m: nat, n: nat) {
    && KeepsExtension(name, m) && !KeepsExtension(name, n)
    && ByteLength(name) == MAX_NAME_BYTES
    && EndsWith(Base(name), NumberSuffix(m)) && EndsWith(name, NumberSuffix(n))
    && |NumberSuffix(n)| < |name| && !IsSpace(name[|name| - |NumberSuffix(n)| - 1])
  }

  lemma {:induction false} LengthInBytes(s: string)
    ensures |s| <= ByteLength(s) <= 4 * |s|
  {
    if s != "" {
      LengthInBytes(s[1..]);
    }
  }

  lemma {:induction false} ByteLengthSplits(name: string)
    ensures ByteLength(name) == ByteLength(Base(name)) + ByteLength(Extension(name))
  {
    ByteLengthJoins(Base(name), Extension(name));
    assert Base(name) + Extension(name) == name;
  }

  /** Cutting away exactly the number. */
  lemma {:induction false} CutBefore(s: string, n: nat, max: nat)
    requires EndsWith(s, NumberSuffix(n)) && ByteLength(s) == max + SuffixBytes(n)
    ensures var k := |s| - |NumberSuffix(n)|;
      PrefixFitting(s, max) == s[..k] && ByteLength(s[..k]) == max && s == s[..k] + NumberSuffix(n)
  {
    var k := |s| - |NumberSuffix(n)|;
    assert s == s[..k] + NumberSuffix(n);
    assert s[k] == NumberSuffix(n)[0] == ' ';
    ByteLengthJoins(s[..k], NumberSuffix(n));
    SuffixBytesCounted(n);
    PrefixFittingIs(s, max, k);
  }

  lemma {:induction false} JoinsTo(cut: string, n: nat, extension: string)
    requires cut != ""
    ensures Joined(cut, n, extension) == cut + NumberSuffix(n) + extension
  {
    assert cut + " " + Numbered(n) == cut + NumberSuffix(n);
  }

  lemma {:induction false} NumberReturns(base: string, m: nat, extension: string, room: nat)
    requires room > 0 && EndsWith(base, NumberSuffix(m)) && ByteLength(base) == room + SuffixBytes(m)
    ensures base + extension == Joined(PrefixFitting(base, room), m, extension)
  {
    CutBefore(base, m, room);
    JoinsTo(PrefixFitting(base, room), m, extension);
  }

  function RoomFor(name: string, m: nat): int {
    MAX_NAME_BYTES - SuffixBytes(m) - ByteLength(Extension(name))
  }

  lemma {:induction false} KeepingCuts(name: string, m: nat)
    requires m < NUMBER_LIMIT && KeepsExtension(name, m)
    ensures RoomFor(name, m) > 0 && CutFor(name, m) == PrefixFitting(Base(name), RoomFor(name, m))
    ensures ExtensionFor(name, m) == Extension(name)
  {
  }

  /** A number that keeps the extension gives a name of 255 bytes back if its base ends with that number. */
  lemma {:induction false} KeepingGivesBack(name: string, m: nat)
    requires m < NUMBER_LIMIT && KeepsExtension(name, m)
    requires ByteLength(name) == MAX_NAME_BYTES && EndsWith(Base(name), NumberSuffix(m))
    ensures name == Joined(CutFor(name, m), m, ExtensionFor(name, m))
  {
    KeepingCuts(name, m);
    ByteLengthSplits(name);
    NumberReturns(Base(name), m, Extension(name), RoomFor(name, m));
    assert Base(name) + Extension(name) == name;
  }

  lemma {:induction false} DroppingIs(name: string, n: nat)
    requires n < NUMBER_LIMIT && !KeepsExtension(name, n)
    ensures ExtensionFor(name, n) == "" && CutFor(name, n) == TrimEnd(PrefixFitting(name, MAX_NAME_BYTES - SuffixBytes(n)))
  {
  }

  lemma {:induction false} NothingToTrim(s: string)
    requires s != "" && !IsSpace(s[|s| - 1])
    ensures TrimEnd(s) == s
  {
  }

  lemma {:induction false} NumberReturnsAtEnd(name: string, n: nat, room: nat)
    requires EndsWith(name, NumberSuffix(n)) && ByteLength(name) == room + SuffixBytes(n)
    requires |NumberSuffix(n)| < |name| && !IsSpace(name[|name| - |NumberSuffix(n)| - 1])
    ensures name == Joined(TrimEnd(PrefixFitting(name, room)), n, "")
  {
    CutBefore(name, n, room);
    var cut := PrefixFitting(name, room);
    NothingToTrim(cut);
    JoinsTo(cut, n, "");
    assert cut + NumberSuffix(n) + "" == cut + NumberSuffix(n);
  }

  lemma {:induction false} DroppingGivesBack(name: string, n: nat)
    requires n < NUMBER_LIMIT && !KeepsExtension(name, n)
    requires ByteLength(name) == MAX_NAME_BYTES && EndsWith(name, NumberSuffix(n))
    requires |NumberSuffix(n)| < |name| && !IsSpace(name[|name| - |NumberSuffix(n)| - 1])
    ensures name == Joined(CutFor(name, n), n, ExtensionFor(name, n))
  {
    NumberReturnsAtEnd(name, n, MAX_NAME_BYTES - SuffixBytes(n));
    DroppingIs(name, n);
  }

  /** Such an extension is long and leaves almost nothing for the base. */
  lemma {:induction false} MeetingSizes(name: string, m: nat, n: nat)
    requires ByteLength(name) <= MAX_NAME_BYTES && m < NUMBER_LIMIT && n < NUMBER_LIMIT
    requires KeepsExtension(name, m) && !KeepsExtension(name, n)
    ensures 248 <= ByteLength(Extension(name)) <= 250 && |Extension(name)| >= 62 && |Base(name)| <= 7
    ensures |Digits(m)| < |Digits(n)| && m < n
  {
    ByteLengthSplits(name);
    LengthInBytes(Extension(name));
    LengthInBytes(Base(name));
    if n <= m {
      DigitsGrow(n, m);
    }
  }

  lemma {:induction false} DigitsGrow(n: nat, m: nat)
    requires n <= m
    ensures |Digits(n)| <= |Digits(m)|
  {
    if m >= 10 && n >= 10 {
      DigitsGrow(n / 10, m / 10);
    }
  }

  /** Where two names with one key differ, neither has a mark. */
  lemma {:induction false} SameMarks(fold: char -> char, a: string, b: string)
    requires KeepsMarks(fold) && FoldAll(fold, a) == FoldAll(fold, b)
    ensures |a| == |b| && forall i :: 0 <= i < |a| && (IsMark(a[i]) || IsMark(b[i])) ==> a[i] == b[i]
  {
    assert |FoldAll(fold, a)| == |a| && |FoldAll(fold, b)| == |b|;
    forall i | 0 <= i < |a| && (IsMark(a[i]) || IsMark(b[i])) ensures a[i] == b[i] {
      assert FoldAll(fold, a)[i] == FoldAll(fold, b)[i];
    }
  }

  /** The last dot of a name that keeps the extension is where the extension begins; of one that drops it, where it began. */
  lemma {:induction false} DotsCoincide(fold: char -> char, name: string, a: string, b: string, cut: string, n: nat)
    requires KeepsMarks(fold) && FoldAll(fold, a) == FoldAll(fold, b)
    requires |Extension(name)| >= 62 && |Base(name)| <= 7 && n < NUMBER_LIMIT && cut <= name
    requires EndsWith(a, Extension(name)) && b == Head(cut) + Numbered(n) && |Extension(name)| <= |a|
    ensures |a| == |name| && |cut| > |Base(name)|
  {
    SameMarks(fold, a, b);
    var at, dot := |a| - |Extension(name)|, |Base(name)|;
    assert name[dot] == '.' == Extension(name)[0] && a[at] == Extension(name)[0];
    forall j | at < j < |a| ensures a[j] != '.' {
      assert a[j] == Extension(name)[j - at] == name[dot + j - at];
    }
    forall j | dot < j < |b| ensures b[j] != '.' {
      if j < |cut| {
        assert b[j] == cut[j] == name[j];
      }
    }
    assert |cut| > dot;
    assert b[dot] == cut[dot] == name[dot];
    assert b[at] == '.' && a[dot] == '.';
  }

  /** So a base that takes a number within its own length had it before. */
  lemma {:induction false} BaseHadNumber(fold: char -> char, name: string, a: string, b: string, cut: string, m: nat)
    requires KeepsMarks(fold) && FoldAll(fold, a) == FoldAll(fold, b)
    requires cut <= Base(name) && a == Head(cut) + Numbered(m) + Extension(name) && |a| == |name|
    requires |Base(name)| <= |b| && b[..|Base(name)|] == Base(name)
    ensures a == name
  {
    SameMarks(fold, a, b);
    var base := Base(name);
    assert name == base + Extension(name);
    forall i | 0 <= i < |base| ensures a[i] == base[i] {
      assert b[i] == b[..|base|][i];
      if i < |cut| {
        assert a[i] == cut[i];
      }
    }
    assert a[..|base|] == base;
    assert a == a[..|base|] + Extension(name);
  }

  lemma {:induction false} CutIsNotEmpty(base: string, room: nat)
    requires base != "" && room >= Width(base[0])
    ensures PrefixFitting(base, room) != ""
  {
  }

  /** A base that ends with the number although it was cut for it was cut by exactly the number. */
  lemma {:induction false} CutByNumber(base: string, cut: string, room: nat, m: nat)
    requires base != "" && room >= 1 && cut == PrefixFitting(base, room) && base == Head(cut) + Numbered(m)
    ensures EndsWith(base, NumberSuffix(m)) && ByteLength(base) == room + SuffixBytes(m)
  {
    CutIsNotEmpty(base, room);
    JoinsTo(cut, m, "");
    assert base + "" == base && cut + NumberSuffix(m) + "" == cut + NumberSuffix(m);
    assert base[|cut|] == ' ' && Width(' ') == 1;
    ByteLengthJoins(cut, NumberSuffix(m));
    SuffixBytesCounted(m);
  }

  lemma {:induction false} EndsWithNumber(name: string, cut: string, n: nat)
    requires cut != "" && !IsSpace(cut[|cut| - 1]) && name == Joined(cut, n, "")
    ensures EndsWith(name, NumberSuffix(n)) && |NumberSuffix(n)| < |name| && !IsSpace(name[|name| - |NumberSuffix(n)| - 1])
  {
    JoinsTo(cut, n, "");
    assert name == cut + NumberSuffix(n);
  }

  /** Behind the cut there is nothing but marks. */
  lemma {:induction false} GivesBack(fold: char -> char, name: string, b: string, cut: string, n: nat)
    requires KeepsMarks(fold) && FoldAll(fold, name) == FoldAll(fold, b) && cut <= name && b == Joined(cut, n, "")
    ensures b == name
  {
    SameMarks(fold, name, b);
    forall i | 0 <= i < |b| ensures b[i] == name[i] {
      if i < |cut| {
        assert b[i] == cut[i];
      }
    }
  }

  /** With one key, both give the name back. */
  lemma {:induction false} OneKeyGivesBack(fold: char -> char, name: string, a: string, b: string, front: string, m: nat, cut: string, n: nat)
    requires KeepsMarks(fold) && FoldAll(fold, a) == FoldAll(fold, b) && n < NUMBER_LIMIT
    requires |Extension(name)| >= 62 && |Base(name)| <= 7
    requires front <= Base(name) && a == Joined(front, m, Extension(name))
    requires cut <= name && b == Joined(cut, n, "")
    ensures a == name && b == name && |cut| > |Base(name)| && Base(name) == Head(front) + Numbered(m)
  {
    assert b == Head(cut) + Numbered(n);
    DotsCoincide(fold, name, a, b, cut, n);
    SameMarks(fold, a, b);
    assert b[..|Base(name)|] == cut[..|Base(name)|] == Base(name);
    BaseHadNumber(fold, name, a, b, front, m);
    GivesBack(fold, name, b, cut, n);
    assert a[..|Base(name)|] == Head(front) + Numbered(m);
  }

  lemma {:induction false} DroppingCuts(name: string, n: nat)
    requires n < NUMBER_LIMIT && !KeepsExtension(name, n)
    ensures CutFor(name, n) <= name
    ensures CutFor(name, n) != "" ==> !IsSpace(CutFor(name, n)[|CutFor(name, n)| - 1])
  {
    CutFits(name, n);
  }

  lemma {:induction false} OneKeyMeets(fold: char -> char, name: string, m: nat, n: nat)
    requires KeepsMarks(fold) && ByteLength(name) <= MAX_NAME_BYTES && m < NUMBER_LIMIT && n < NUMBER_LIMIT
    requires KeepsExtension(name, m) && !KeepsExtension(name, n)
    requires FoldAll(fold, Joined(CutFor(name, m), m, Extension(name))) == FoldAll(fold, Joined(CutFor(name, n), n, ""))
    ensures Meets(name, m, n)
  {
    var front, cut := CutFor(name, m), CutFor(name, n);
    MeetingSizes(name, m, n);
    KeepingCuts(name, m);
    DroppingCuts(name, n);
    OneKeyGivesBack(fold, name, Joined(front, m, Extension(name)), Joined(cut, n, ""), front, m, cut, n);
    CutByNumber(Base(name), front, RoomFor(name, m), m);
    EndsWithNumber(name, cut, n);
    ByteLengthSplits(name);
  }

  lemma {:induction false} CandidateKeyIs(fold: char -> char, name: string, n: nat)
    requires KeepsMarks(fold) && IsName(fold, name) && n < NUMBER_LIMIT
    ensures CandidateKey(fold, name, n) == FoldAll(fold, Joined(CutFor(name, n), n, ExtensionFor(name, n)))
  {
    NumberedNameIsName(fold, name, n);
    TrimOf(Candidate(fold, name, n));
  }

  lemma {:induction false} BothGiveBack(fold: char -> char, name: string, m: nat, n: nat)
    requires KeepsMarks(fold) && IsName(fold, name) && m < NUMBER_LIMIT && n < NUMBER_LIMIT && Meets(name, m, n)
    ensures Candidate(fold, name, m) == Candidate(fold, name, n) == name && m < n
  {
    MeetingSizes(name, m, n);
    KeepingGivesBack(name, m);
    DroppingGivesBack(name, n);
    CandidateIs(fold, name, m);
    CandidateIs(fold, name, n);
  }

  lemma {:induction false} KeysAreFolded(fold: char -> char, name: string, m: nat, n: nat)
    requires KeepsMarks(fold) && IsName(fold, name) && m < NUMBER_LIMIT && n < NUMBER_LIMIT
    requires KeepsExtension(name, m) && !KeepsExtension(name, n)
    requires CandidateKey(fold, name, m) == CandidateKey(fold, name, n)
    ensures FoldAll(fold, Joined(CutFor(name, m), m, Extension(name))) == FoldAll(fold, Joined(CutFor(name, n), n, ""))
  {
    CandidateKeyIs(fold, name, m);
    CandidateKeyIs(fold, name, n);
  }

  lemma {:induction false} NameIsShort(fold: char -> char, name: string)
    requires IsName(fold, name)
    ensures ByteLength(name) <= MAX_NAME_BYTES
  {
  }

  lemma {:induction false} ConflictMeets(fold: char -> char, name: string, m: nat, n: nat)
    requires KeepsMarks(fold) && IsName(fold, name) && m < NUMBER_LIMIT && n < NUMBER_LIMIT
    requires KeepsExtension(name, m) && !KeepsExtension(name, n)
    requires CandidateKey(fold, name, m) == CandidateKey(fold, name, n)
    ensures Meets(name, m, n)
  {
    KeysAreFolded(fold, name, m, n);
    NameIsShort(fold, name);
    OneKeyMeets(fold, name, m, n);
  }

  /**
   A number that keeps the extension and one that drops it conflict exactly when the name carries both already
   and has 255 bytes. Both then give the very name back.
   */
  lemma {:induction false} ConflictIffMeets(fold: char -> char, name: string, m: nat, n: nat)
    requires KeepsMarks(fold) && IsName(fold, name) && m < NUMBER_LIMIT && n < NUMBER_LIMIT
    requires KeepsExtension(name, m) && !KeepsExtension(name, n)
    ensures CandidateKey(fold, name, m) == CandidateKey(fold, name, n) <==> Meets(name, m, n)
    ensures Meets(name, m, n) ==> Candidate(fold, name, m) == Candidate(fold, name, n) == name && m < n
  {
    if Meets(name, m, n) {
      BothGiveBack(fold, name, m, n);
    }
    if CandidateKey(fold, name, m) == CandidateKey(fold, name, n) {
      ConflictMeets(fold, name, m, n);
    }
  }

  /** Two numbers conflict exactly when they meet, and for one name no two pairs do. */
  lemma {:induction false} NumbersConflictIff(fold: char -> char, name: string, m: nat, n: nat)
    requires KeepsMarks(fold) && IsName(fold, name) && m < n < NUMBER_LIMIT
    ensures CandidateKey(fold, name, m) == CandidateKey(fold, name, n) <==> Meets(name, m, n)
  {
    if KeepsExtension(name, m) == KeepsExtension(name, n) {
      if CandidateKey(fold, name, m) == CandidateKey(fold, name, n) {
        CandidatesDiffer(fold, name, m, n);
      }
    } else if KeepsExtension(name, m) {
      ConflictIffMeets(fold, name, m, n);
    } else {
      MeetingSizes(name, n, m);
    }
  }

  /** There are such names: "a (2)." followed by 244 times "x" and " (10)" is what both 2 and 10 give back. */
  lemma {:induction false} NumbersCanMeet(fold: char -> char) returns (name: string)
    requires KeepsMarks(fold)
    ensures IsName(fold, name) && Meets(name, 2, 10)
    ensures Candidate(fold, name, 2) == Candidate(fold, name, 10) == name
  {
    var middle := seq(244, _ => 'x');
    name := "a (2)." + middle + " (10)";
    LongNameIsName(fold, name, middle);
    LongNameMeets(name, middle);
    ConflictIffMeets(fold, name, 2, 10);
  }

  lemma {:induction false} LongNameIsName(fold: char -> char, name: string, middle: string)
    requires KeepsMarks(fold) && |middle| == 244 && forall i :: 0 <= i < 244 ==> middle[i] == 'x'
    requires name == "a (2)." + middle + " (10)"
    ensures IsName(fold, name) && forall i :: 0 <= i < |name| ==> name[i] as int < 0x80
  {
    forall i | 0 <= i < |name| ensures name[i] as int < 0x80 && !IsForbidden(name[i]) {
      if 6 <= i < 250 {
        assert name[i] == middle[i - 6];
      }
    }
    OneByteEach(name);
    assert UpToFirstDot(name) == "a " + Numbered(2) by {
      FirstDot(name, 5);
      assert Digits(2) == "2";
    }
    NumberedIsNotReserved(fold, "a ", 2);
    PlainIsName(fold, name);
  }

  lemma {:induction false} LongNameMeets(name: string, middle: string)
    requires |middle| == 244 && '.' !in middle && middle[243] == 'x' && name == "a (2)." + middle + " (10)"
    requires forall i :: 0 <= i < |name| ==> name[i] as int < 0x80
    ensures Meets(name, 2, 10)
  {
    LongExtension(name, middle);
    OneByteEach(name);
    OneByteEach(Extension(name));
    NumbersInLongName(name, middle);
  }

  lemma {:induction false} LongExtension(name: string, middle: string)
    requires |middle| == 244 && '.' !in middle && name == "a (2)." + middle + " (10)"
    ensures ExtensionAt(name) == 5
  {
    assert name[5] == '.';
    forall j | 5 < j < |name| ensures name[j] != '.' {
      if j < 250 {
        assert name[j] == middle[j - 6];
      }
    }
  }

  lemma {:induction false} NumbersInLongName(name: string, middle: string)
    requires |middle| == 244 && middle[243] == 'x' && name == "a (2)." + middle + " (10)"
    ensures EndsWith(name[..5], NumberSuffix(2)) && EndsWith(name, NumberSuffix(10)) && |Digits(2)| == 1 && |Digits(10)| == 2
    ensures |NumberSuffix(10)| == 5 && !IsSpace(name[249])
  {
    assert Digits(2) == "2" && Digits(10) == "10";
    assert NumberSuffix(2) == " (2)" && NumberSuffix(10) == " (10)";
    assert name[..5] == "a (2)" && name[..5][1..] == " (2)";
    assert name[250..] == " (10)" && name[249] == middle[243];
  }

  lemma {:induction false} OnePairMeets(fold: char -> char, name: string, m: nat, n: nat, k: nat, l: nat)
    requires KeepsMarks(fold) && IsName(fold, name) && m < n < NUMBER_LIMIT && k < l < NUMBER_LIMIT
    requires Meets(name, m, n) && Meets(name, k, l)
    ensures m == k && n == l
  {
    ConflictIffMeets(fold, name, m, n);
    ConflictIffMeets(fold, name, k, l);
    CandidatesDiffer(fold, name, m, k);
    CandidatesDiffer(fold, name, n, l);
  }

  ghost predicate HasMeeting(name: string) {
    exists m: nat, n: nat :: FIRST_NUMBER <= m < n < NUMBER_LIMIT && Meets(name, m, n)
  }

  // ---------- the search ----------

  ghost function KeysBelow(keys: nat -> string, limit: nat): set<string> {
    if limit <= FIRST_NUMBER then {} else KeysBelow(keys, limit - 1) + {keys(limit - 1)}
  }

  lemma {:induction false} KeyHasNumber(keys: nat -> string, limit: nat, key: string)
    requires key in KeysBelow(keys, limit)
    ensures exists n: nat :: FIRST_NUMBER <= n < limit && keys(n) == key
    decreases limit
  {
    if key != keys(limit - 1) {
      KeyHasNumber(keys, limit - 1, key);
    }
  }

  /** No two numbers give one key, except for one pair of them at most. */
  ghost predicate AllDifferBut(keys: nat -> string, pair: Option<(nat, nat)>) {
    && (pair.Some? ==> FIRST_NUMBER <= pair.value.0 < pair.value.1 < NUMBER_LIMIT)
    && forall m: nat, n: nat :: FIRST_NUMBER <= m < n < NUMBER_LIMIT ==> OnlyPair(keys, pair, m, n)
  }

  predicate OnlyPair(keys: nat -> string, pair: Option<(nat, nat)>, m: nat, n: nat) {
    keys(m) == keys(n) <==> pair == Some((m, n))
  }

  lemma {:induction false} KeysAreMany(keys: nat -> string, pair: Option<(nat, nat)>, limit: nat)
    requires AllDifferBut(keys, pair) && FIRST_NUMBER <= limit <= NUMBER_LIMIT
    ensures |KeysBelow(keys, limit)| == limit - FIRST_NUMBER - if pair.Some? && pair.value.1 < limit then 1 else 0
    decreases limit
  {
    if limit > FIRST_NUMBER {
      KeysAreMany(keys, pair, limit - 1);
      NextKeyIsNew(keys, pair, limit - 1);
      var before := KeysBelow(keys, limit - 1);
      assert keys(limit - 1) in before ==> before + {keys(limit - 1)} == before;
    }
  }

  /** The next number adds a key, unless it is the second of the pair. */
  lemma {:induction false} NextKeyIsNew(keys: nat -> string, pair: Option<(nat, nat)>, n: nat)
    requires AllDifferBut(keys, pair) && FIRST_NUMBER <= n < NUMBER_LIMIT
    ensures keys(n) in KeysBelow(keys, n) <==> pair.Some? && pair.value.1 == n
  {
    if keys(n) in KeysBelow(keys, n) {
      KeyHasNumber(keys, n, keys(n));
      var m: nat :| FIRST_NUMBER <= m < n && keys(m) == keys(n);
      assert OnlyPair(keys, pair, m, n);
    }
    if pair.Some? && pair.value.1 == n {
      assert OnlyPair(keys, pair, pair.value.0, n);
      NumberHasKey(keys, n, pair.value.0);
    }
  }

  lemma {:induction false} NumberHasKey(keys: nat -> string, limit: nat, n: nat)
    requires FIRST_NUMBER <= n < limit
    ensures keys(n) in KeysBelow(keys, limit)
    decreases limit
  {
    if n < limit - 1 {
      NumberHasKey(keys, limit - 1, n);
    }
  }

  lemma {:induction false} SmallerSetMisses(big: set<string>, small: set<string>)
    requires |big| > |small|
    ensures exists x :: x in big && x !in small
  {
    if big <= small {
      SubsetIsSmaller(big, small);
      assert false;
    }
  }

  lemma {:induction false} SubsetIsSmaller(part: set<string>, whole: set<string>)
    requires part <= whole
    ensures |part| <= |whole|
  {
    assert whole == part + (whole - part);
  }

  predicate AllTakenBelow(keys: nat -> string, taken: set<string>, limit: nat) {
    forall n: nat :: FIRST_NUMBER <= n < limit ==> keys(n) in taken
  }

  /** The loop of the search: `keys` gives the key of each candidate. */
  method FirstFreeNumber(keys: nat -> string, taken: set<string>) returns (r: Option<nat>)
    ensures r.None? ==> AllTakenBelow(keys, taken, NUMBER_LIMIT)
    ensures r.Some? ==> FIRST_NUMBER <= r.value < NUMBER_LIMIT
    ensures r.Some? ==> keys(r.value) !in taken && AllTakenBelow(keys, taken, r.value)
  {
    for index := FIRST_NUMBER to NUMBER_LIMIT
      invariant AllTakenBelow(keys, taken, index)
    {
      if keys(index) !in taken {
        return Some(index);
      }
    }
    return None;
  }

  function CandidateKeys(fold: char -> char, name: string): nat -> string {
    (n: nat) => CandidateKey(fold, name, n)
  }

  /** `r` is `name` with the least number that makes it free. */
  ghost predicate IsLeastFree(fold: char -> char, name: string, taken: set<string>, r: string) {
    exists n: nat :: FIRST_NUMBER <= n < NUMBER_LIMIT && r == Candidate(fold, name, n)
      && AllTakenBelow(CandidateKeys(fold, name), taken, n)
  }

  lemma {:induction false} CandidateIsName(fold: char -> char, name: string, n: nat)
    requires KeepsMarks(fold) && IsName(fold, name) && n < NUMBER_LIMIT
    ensures Suffixed(fold, name, NumberSuffix(n)) == Accepted(Candidate(fold, name, n))
    ensures IsName(fold, Candidate(fold, name, n))
  {
    NumberedNameIsName(fold, name, n);
  }

  /** How many different keys the search tries. */
  ghost function CandidateCount(name: string): nat {
    if HasMeeting(name) then 9997 else 9998
  }

  lemma {:induction false} MeetingIs(fold: char -> char, name: string) returns (pair: Option<(nat, nat)>)
    requires KeepsMarks(fold) && IsName(fold, name)
    ensures AllDifferBut(CandidateKeys(fold, name), pair) && (pair.Some? <==> HasMeeting(name))
  {
    var keys := CandidateKeys(fold, name);
    pair := None;
    if HasMeeting(name) {
      var m: nat, n: nat :| FIRST_NUMBER <= m < n < NUMBER_LIMIT && Meets(name, m, n);
      pair := Some((m, n));
    }
    forall m: nat, n: nat | FIRST_NUMBER <= m < n < NUMBER_LIMIT ensures OnlyPair(keys, pair, m, n) {
      NumbersConflictIff(fold, name, m, n);
      if pair.Some? && Meets(name, m, n) {
        OnePairMeets(fold, name, m, n, pair.value.0, pair.value.1);
      }
    }
  }

  lemma {:induction false} CandidatesCounted(fold: char -> char, name: string)
    requires KeepsMarks(fold) && IsName(fold, name)
    ensures |KeysBelow(CandidateKeys(fold, name), NUMBER_LIMIT)| == CandidateCount(name)
  {
    var pair := MeetingIs(fold, name);
    KeysAreMany(CandidateKeys(fold, name), pair, NUMBER_LIMIT);
  }

  /** Some number is free as long as fewer sibling names are taken than there are candidates: 9997 for any name. */
  lemma {:induction false} SearchSucceeds(fold: char -> char, name: string, taken: set<string>)
    requires KeepsMarks(fold) && IsName(fold, name) && |taken| < CandidateCount(name)
    ensures !AllTakenBelow(CandidateKeys(fold, name), taken, NUMBER_LIMIT)
  {
    var keys := CandidateKeys(fold, name);
    CandidatesCounted(fold, name);
    SmallerSetMisses(KeysBelow(keys, NUMBER_LIMIT), taken);
    var key :| key in KeysBelow(keys, NUMBER_LIMIT) && key !in taken;
    KeyHasNumber(keys, NUMBER_LIMIT, key);
  }

  /** With as many taken names as candidates the search can fail. */
  lemma {:induction false} SearchCanFail(fold: char -> char, name: string) returns (taken: set<string>)
    requires KeepsMarks(fold) && IsName(fold, name)
    ensures |taken| == CandidateCount(name) && AllTakenBelow(CandidateKeys(fold, name), taken, NUMBER_LIMIT)
  {
    var keys := CandidateKeys(fold, name);
    taken := KeysBelow(keys, NUMBER_LIMIT);
    CandidatesCounted(fold, name);
    forall n: nat | FIRST_NUMBER <= n < NUMBER_LIMIT ensures keys(n) in taken {
      NumberHasKey(keys, NUMBER_LIMIT, n);
    }
  }

  /** The name that is wanted if it is free, and otherwise the first candidate that is. */
  ghost predicate IsResolved(fold: char -> char, value: string, taken: set<string>, r: NameResult) {
    match Normalize(fold, value)
    case Refused(_) => r == Normalize(fold, value)
    case Accepted(name) =>
      && (ConflictKey(fold, name) !in taken ==> r == Accepted(name))
      && (r.Accepted? ==> IsName(fold, r.name) && ConflictKey(fold, r.name) !in taken)
      && (ConflictKey(fold, name) in taken && r.Accepted? ==> IsLeastFree(fold, name, taken, r.name))
      && (r.Refused? ==> r.reason == NoneFree && AllTakenBelow(CandidateKeys(fold, name), taken, NUMBER_LIMIT))
  }

  /**
   The name asked for if it is free, and otherwise the least number that makes it free. `taken` holds
   the keys of the active siblings.
   */
  method ResolveAvailableName(fold: char -> char, value: string, taken: set<string>) returns (r: NameResult)
    requires KeepsMarks(fold)
    ensures IsResolved(fold, value, taken, r)
    ensures Normalize(fold, value).Accepted? && |taken| < CandidateCount(Normalize(fold, value).name) ==> r.Accepted?
  {
    var desired := Normalize(fold, value);
    if desired.Refused? {
      return desired;
    }
    NormalizeGivesNames(fold, value);
    if ConflictKey(fold, desired.name) !in taken {
      return desired;
    }
    if |taken| < CandidateCount(desired.name) {
      SearchSucceeds(fold, desired.name, taken);
    }
    var number := FirstFreeNumber(CandidateKeys(fold, desired.name), taken);
    if number.None? {
      return Refused(NoneFree);
    }
    CandidateIsName(fold, desired.name, number.value);
    return Suffixed(fold, desired.name, NumberSuffix(number.value));
  }
}
