/**
 Names for files offered to a Windows client (the naming functions of src/clipboard/files.rs): characters
 Windows forbids are replaced, device names are defused, and names in one directory are kept
 apart even for a client that ignores case.
 */
module FileNames {
  import Sets
  import opened Regions

  /**
   `char::to_uppercase`, which may yield several characters.  Of the Unicode tables only this is
   assumed: digits stay themselves, and nothing but a backslash yields one.
   */
  datatype CaseTable = CaseTable(upper: char -> string) {
    ghost predicate Valid() {
      && (forall c: char :: '0' <= c <= '9' ==> upper(c) == [c])
      && (forall c: char :: c != '\\' ==> '\\' !in upper(c))
      && upper('\\') == ['\\']
    }
  }

  /** `str::to_uppercase`: the key under which Windows names collide. */
  function Key(name: string, t: CaseTable): string {
    if name == [] then [] else t.upper(name[0]) + Key(name[1..], t)
  }

  lemma {:induction false} KeyConcat(a: string, b: string, t: CaseTable)
    ensures Key(a + b, t) == Key(a, t) + Key(b, t)
    decreases |a|
  {
    if a == [] {
      assert a + b == b;
    } else {
      assert (a + b)[1..] == a[1..] + b;
      KeyConcat(a[1..], b, t);
    }
  }

  lemma {:induction false} KeyHasNoBackslash(name: string, t: CaseTable)
    requires t.Valid() && '\\' !in name
    ensures '\\' !in Key(name, t)
    decreases |name|
  {
    if name == [] {
    } else {
      KeyHasNoBackslash(name[1..], t);
      assert name[0] != '\\';
    }
  }

  // ----- sanitizing

  predicate Forbidden(c: char) {
    c in "<>:\"/\\|?*" || c <= '\U{1f}'
  }

  function ReplaceForbidden(name: string): string {
    if name == [] then [] else [if Forbidden(name[0]) then '_' else name[0]] + ReplaceForbidden(name[1..])
  }

  /** `trim_end_matches(['.', ' '])`. */
  function TrimEnd(name: string): string {
    if name != [] && (name[|name| - 1] == '.' || name[|name| - 1] == ' ') then TrimEnd(name[..|name| - 1]) else name
  }

  /** Where the first dot is, or the length. */
  function FirstDot(name: string): (i: nat)
    ensures i <= |name| && '.' !in name[..i] && (i < |name| ==> name[i] == '.')
  {
    if name == [] || name[0] == '.' then 0
    else
      var i := FirstDot(name[1..]);
      assert name[..i + 1] == [name[0]] + name[1..][..i];
      i + 1
  }

  /** Where the last dot is, if there is one. */
  function LastDot(name: string): (i: Option<nat>)
    ensures i.Some? ==> i.value < |name| && name[i.value] == '.' && '.' !in name[i.value + 1..]
    ensures i.None? ==> '.' !in name
  {
    if name == [] then None
    else if name[|name| - 1] == '.' then Some(|name| - 1)
    else
      var i := LastDot(name[..|name| - 1]);
      assert name == name[..|name| - 1] + [name[|name| - 1]];
      assert i.Some? ==> name[i.value + 1..] == name[..|name| - 1][i.value + 1..] + [name[|name| - 1]];
      i
  }

  function AsciiUpper(name: string): string {
    if name == [] then []
    else [if 'a' <= name[0] <= 'z' then name[0] - 'a' + 'A' else name[0]] + AsciiUpper(name[1..])
  }

  /** CON, PRN, AUX, NUL, COM1-9 and LPT1-9 (also with superscript digits), whatever extension follows. */
  predicate IsWindowsDeviceName(name: string) {
    var base := AsciiUpper(name[..FirstDot(name)]);
    || base in ["CON", "PRN", "AUX", "NUL"]
    || (|base| == 4 && base[..3] in ["COM", "LPT"] && base[3] in "123456789\U{b9}\U{b2}\U{b3}")
  }

  function SanitizeFileName(name: string): string {
    var trimmed := TrimEnd(ReplaceForbidden(name));
    var sanitized := if trimmed == [] || trimmed == "." || trimmed == ".." then "unnamed" else trimmed;
    if IsWindowsDeviceName(sanitized) then
      var end := FirstDot(sanitized);
      sanitized[..end] + "_" + sanitized[end..]
    else sanitized
  }

  /** No forbidden character, and not ending in a dot or a space. */
  ghost predicate Allowed(name: string) {
    && name != []
    && (forall i :: 0 <= i < |name| ==> !Forbidden(name[i]))
    && name[|name| - 1] != '.' && name[|name| - 1] != ' '
  }

  /** A name a Windows client can create. */
  ghost predicate SafeName(name: string) {
    Allowed(name) && !IsWindowsDeviceName(name)
  }

  lemma {:induction false} ReplacedIsAllowed(name: string)
    ensures |ReplaceForbidden(name)| == |name|
    ensures forall i :: 0 <= i < |name| ==> !Forbidden(ReplaceForbidden(name)[i])
    ensures forall i :: 0 <= i < |name| ==> ReplaceForbidden(name)[i] == if Forbidden(name[i]) then '_' else name[i]
    decreases |name|
  {
    if name == [] {
    } else {
      ReplacedIsAllowed(name[1..]);
      forall i | 0 <= i < |name|
        ensures !Forbidden(ReplaceForbidden(name)[i])
        ensures ReplaceForbidden(name)[i] == if Forbidden(name[i]) then '_' else name[i]
      {
        if i > 0 {
          assert ReplaceForbidden(name)[i] == ReplaceForbidden(name[1..])[i - 1];
        }
      }
    }
  }

  lemma {:induction false} TrimmedEnd(name: string)
    ensures TrimEnd(name) <= name
    ensures forall i :: |TrimEnd(name)| <= i < |name| ==> name[i] == '.' || name[i] == ' '
    ensures TrimEnd(name) != [] ==> TrimEnd(name)[|TrimEnd(name)| - 1] != '.' && TrimEnd(name)[|TrimEnd(name)| - 1] != ' '
    decreases |name|
  {
    if name != [] && (name[|name| - 1] == '.' || name[|name| - 1] == ' ') {
      TrimmedEnd(name[..|name| - 1]);
    }
  }

  lemma {:induction false} AsciiUpperAppend(a: string, c: char)
    ensures AsciiUpper(a + [c]) == AsciiUpper(a) + AsciiUpper([c])
    ensures |AsciiUpper(a)| == |a|
    decreases |a|
  {
    if a == [] {
      assert a + [c] == [c];
    } else {
      assert (a + [c])[1..] == a[1..] + [c];
      AsciiUpperAppend(a[1..], c);
    }
  }

  /** An underscore behind the first part of a device name makes it an ordinary name. */
  lemma DefusedIsNoDevice(name: string)
    requires IsWindowsDeviceName(name)
    ensures var end := FirstDot(name); !IsWindowsDeviceName(name[..end] + "_" + name[end..])
  {
    var end := FirstDot(name);
    var out := name[..end] + "_" + name[end..];
    AsciiUpperAppend(name[..end], '_');
    FirstDotIs(out, end + 1);
    assert out[..end + 1] == name[..end] + ['_'];
    UnderscoreIsNoDevice(name[..end]);
  }

  lemma UnderscoreIsNoDevice(part: string)
    requires |part| == 3 || |part| == 4
    ensures var base := AsciiUpper(part + ['_']);
            base !in ["CON", "PRN", "AUX", "NUL"] && !(|base| == 4 && base[3] in "123456789\U{b9}\U{b2}\U{b3}")
  {
    AsciiUpperAppend(part, '_');
    assert AsciiUpper("_") == "_";
  }

  lemma {:induction false} FirstDotIs(name: string, i: nat)
    requires i <= |name| && '.' !in name[..i] && (i < |name| ==> name[i] == '.')
    ensures FirstDot(name) == i
    decreases i
  {
    if i == 0 {
    } else {
      assert name[..i][0] == name[0];
      assert name[1..][..i - 1] == name[..i][1..];
      FirstDotIs(name[1..], i - 1);
    }
  }

  lemma TrimmedIsAllowed(name: string)
    ensures var trimmed := TrimEnd(ReplaceForbidden(name)); trimmed == [] || Allowed(trimmed)
  {
    ReplacedIsAllowed(name);
    TrimmedEnd(ReplaceForbidden(name));
  }

  lemma DefusedIsAllowed(name: string, end: nat)
    requires Allowed(name) && end <= |name|
    ensures Allowed(name[..end] + "_" + name[end..])
  {
  }

  /** Whatever the source file is called, the client gets a name it can create. */
  lemma SanitizedIsSafe(name: string)
    ensures SafeName(SanitizeFileName(name))
  {
    TrimmedIsAllowed(name);
    var trimmed := TrimEnd(ReplaceForbidden(name));
    DefusedIsSafe(if trimmed == [] || trimmed == "." || trimmed == ".." then "unnamed" else trimmed);
  }

  lemma DefusedIsSafe(name: string)
    requires Allowed(name)
    ensures SafeName(if IsWindowsDeviceName(name) then name[..FirstDot(name)] + "_" + name[FirstDot(name)..] else name)
  {
    if IsWindowsDeviceName(name) {
      DefusedIsNoDevice(name);
      DefusedIsAllowed(name, FirstDot(name));
    }
  }

  /** A name that is safe already is kept. */
  lemma SafeIsKept(name: string)
    requires SafeName(name)
    ensures SanitizeFileName(name) == name
  {
    ReplacedIsAllowed(name);
    assert ReplaceForbidden(name) == name;
    assert TrimEnd(name) == name;
  }

  /** What is left of `name` when its last dots and spaces go and every forbidden character becomes an underscore. */
  ghost predicate Renamed(name: string, plain: string) {
    && |plain| <= |name|
    && (forall i :: 0 <= i < |plain| ==> plain[i] == if Forbidden(name[i]) then '_' else name[i])
    && (forall i :: |plain| <= i < |name| ==> name[i] == '.' || name[i] == ' ')
    && (plain != [] ==> name[|plain| - 1] != '.' && name[|plain| - 1] != ' ')
  }

  /**
   Nothing but forbidden characters and the end of the name is touched: a name that is nothing but
   dots and spaces becomes "unnamed", a device name gets one underscore before its first dot, and
   any other keeps every character that Windows allows.
   */
  lemma SanitizedKeeps(name: string) returns (plain: string)
    ensures Renamed(name, plain)
    ensures plain == [] ==> SanitizeFileName(name) == "unnamed"
    ensures plain != [] && !IsWindowsDeviceName(plain) ==> SanitizeFileName(name) == plain
    ensures plain != [] && IsWindowsDeviceName(plain) ==>
              exists dot :: 0 <= dot <= |plain| && '.' !in plain[..dot] && (dot < |plain| ==> plain[dot] == '.') &&
                            SanitizeFileName(name) == plain[..dot] + "_" + plain[dot..]
  {
    plain := TrimEnd(ReplaceForbidden(name));
    TrimmedIsRenamed(name);
    hide Renamed, ReplaceForbidden, TrimEnd;
    UnnamedIsNoDevice();
    TrimmedEnd(ReplaceForbidden(name));
    hide IsWindowsDeviceName;
    if plain != [] && IsWindowsDeviceName(plain) {
      var dot := FirstDot(plain);
      assert SanitizeFileName(name) == plain[..dot] + "_" + plain[dot..];
    }
  }

  lemma TrimmedIsRenamed(name: string)
    ensures Renamed(name, TrimEnd(ReplaceForbidden(name)))
  {
    ReplacedIsAllowed(name);
    TrimmedEnd(ReplaceForbidden(name));
    var replaced := ReplaceForbidden(name);
    var plain := TrimEnd(replaced);
    hide ReplaceForbidden, TrimEnd;
    assert plain == replaced[..|plain|];
  }

  lemma UnnamedIsNoDevice()
    ensures !IsWindowsDeviceName("unnamed")
  {
    FirstDotIs("unnamed", 7);
    assert "unnamed"[..7] == "unnamed";
    assert |AsciiUpper("unnamed")| == 7 by { AsciiUpperAppend("unnamed", 'a'); }
  }

  // ----- telling equal names apart

  function Digits(n: nat): string {
    if n < 10 then ['0' + n as char] else Digits(n / 10) + ['0' + (n % 10) as char]
  }

  lemma {:induction false} DigitsAreDigits(n: nat)
    ensures Digits(n) != [] && forall i :: 0 <= i < |Digits(n)| ==> '0' <= Digits(n)[i] <= '9'
    decreases n
  {
    if n >= 10 {
      DigitsAreDigits(n / 10);
    }
  }

  /** The number that a string of decimal digits is read as. */
  ghost function Read(digits: string): int {
    if digits == [] then 0 else 10 * Read(digits[..|digits| - 1]) + (digits[|digits| - 1] as int - '0' as int)
  }

  /** A number is written in decimal, without a zero in front. */
  lemma {:induction false} DigitsReadBack(n: nat)
    ensures Read(Digits(n)) == n && (n > 0 ==> Digits(n)[0] != '0')
    decreases n
  {
    DigitsAreDigits(n);
    if n < 10 {
      assert Digits(n)[..0] == [];
    } else {
      DigitsReadBack(n / 10);
      DigitsAreDigits(n / 10);
      assert Digits(n)[..|Digits(n)| - 1] == Digits(n / 10);
    }
  }

  /** Different numbers are written differently. */
  lemma DigitsInjective(a: nat, b: nat)
    requires Digits(a) == Digits(b)
    ensures a == b
  {
    DigitsReadBack(a);
    DigitsReadBack(b);
  }

  /** Stem and extension; a leading dot does not start an extension. */
  function SplitExtension(name: string): (string, string) {
    var dot := LastDot(name);
    if dot.None? || dot.value == 0 then (name, "") else (name[..dot.value], name[dot.value..])
  }

  /** An extension starts at the last dot; a dot in front of everything starts none. */
  ghost predicate IsSplit(name: string, stem: string, extension: string) {
    && name == stem + extension
    && if extension == "" then '.' !in name[Min(1, |name|)..] else stem != [] && extension[0] == '.' && '.' !in extension[1..]
  }

  /** There is one way to split a name. */
  lemma OneSplit(name: string, stem: string, extension: string)
    requires IsSplit(name, stem, extension)
    ensures SplitExtension(name) == (stem, extension)
  {
    if extension == "" {
      assert name == stem;
      NoDotFrom(name, Min(1, |name|));
    } else {
      LastDotIs(name, |stem|);
      assert name[..|stem|] == stem && name[|stem|..] == extension;
    }
  }

  /** And it is taken. */
  lemma SplitWhole(name: string)
    ensures IsSplit(name, SplitExtension(name).0, SplitExtension(name).1)
  {
    var dot := LastDot(name);
    if dot.Some? && dot.value > 0 {
      assert name[dot.value..][1..] == name[dot.value + 1..];
    }
  }

  lemma NoDotFrom(name: string, start: nat)
    requires start <= |name| && '.' !in name[start..]
    ensures forall k :: start <= k < |name| ==> name[k] != '.'
  {
    forall k | start <= k < |name|
      ensures name[k] != '.'
    {
      assert name[start..][k - start] == name[k];
    }
  }

  lemma LastDotIs(name: string, i: nat)
    requires i < |name| && name[i] == '.' && '.' !in name[i + 1..]
    ensures LastDot(name) == Some(i)
  {
    NoDotFrom(name, i + 1);
    NoDotFrom(name, LastDot(name).value + 1);
  }

  /** A numbered form has the name's extension, and the number in brackets behind the name's stem. */
  lemma NumberedKeepsExtension(name: string, k: nat)
    requires name != []
    ensures IsSplit(name, SplitExtension(name).0, SplitExtension(name).1)
    ensures IsSplit(Candidate(name, k), SplitExtension(name).0 + " (" + Digits(k) + ")", SplitExtension(name).1)
  {
    var stem, extension := SplitExtension(name).0, SplitExtension(name).1;
    SplitWhole(name);
    DigitsAreDigits(k);
    var numbered := stem + " (" + Digits(k) + ")";
    assert Candidate(name, k) == numbered + extension;
    if extension == "" {
      assert Candidate(name, k)[1..] == name[1..] + " (" + Digits(k) + ")";
    }
  }

  function Candidate(name: string, k: nat): string {
    SplitExtension(name).0 + " (" + Digits(k) + ")" + SplitExtension(name).1
  }

  lemma {:induction false} DigitsKeepTheirKey(s: string, t: CaseTable)
    requires t.Valid() && forall i :: 0 <= i < |s| ==> '0' <= s[i] <= '9'
    ensures Key(s, t) == s
    decreases |s|
  {
    if s == [] {
    } else {
      DigitsKeepTheirKey(s[1..], t);
      assert s == [s[0]] + s[1..];
    }
  }

  lemma CandidateKey(name: string, k: nat, t: CaseTable)
    requires t.Valid()
    ensures Key(Candidate(name, k), t) ==
            Key(SplitExtension(name).0 + " (", t) + Digits(k) + Key(")" + SplitExtension(name).1, t)
  {
    var stem, extension := SplitExtension(name).0, SplitExtension(name).1;
    assert Candidate(name, k) == ((stem + " (") + Digits(k)) + (")" + extension);
    KeyConcat((stem + " (") + Digits(k), ")" + extension, t);
    KeyConcat(stem + " (", Digits(k), t);
    DigitsAreDigits(k);
    DigitsKeepTheirKey(Digits(k), t);
  }

  /** Candidates with different numbers stay different when case is ignored. */
  lemma CandidateKeysDiffer(name: string, a: nat, b: nat, t: CaseTable)
    requires t.Valid() && Key(Candidate(name, a), t) == Key(Candidate(name, b), t)
    ensures a == b
  {
    CandidateKey(name, a, t);
    CandidateKey(name, b, t);
    var front := Key(SplitExtension(name).0 + " (", t);
    var back := Key(")" + SplitExtension(name).1, t);
    var ka, kb := front + Digits(a) + back, front + Digits(b) + back;
    assert ka[|front|..|ka| - |back|] == Digits(a);
    assert kb[|front|..|kb| - |back|] == Digits(b);
    DigitsInjective(a, b);
  }

  /** The keys of the candidates 2, 3, ..., k - 1. */
  ghost function TriedKeys(name: string, k: nat, t: CaseTable): set<string> {
    if k <= 2 then {} else TriedKeys(name, k - 1, t) + {Key(Candidate(name, k - 1), t)}
  }

  lemma {:induction false} TriedKeyOf(name: string, k: nat, t: CaseTable, key: string) returns (j: nat)
    requires key in TriedKeys(name, k, t)
    ensures 2 <= j < k && key == Key(Candidate(name, j), t)
    decreases k
  {
    if key == Key(Candidate(name, k - 1), t) {
      j := k - 1;
    } else {
      j := TriedKeyOf(name, k - 1, t, key);
    }
  }

  lemma {:induction false} TriedKeysCount(name: string, k: nat, t: CaseTable)
    requires t.Valid() && k >= 2
    ensures |TriedKeys(name, k, t)| == k - 2
    decreases k
  {
    if k <= 2 {
    } else {
      TriedKeysCount(name, k - 1, t);
      var key := Key(Candidate(name, k - 1), t);
      if key in TriedKeys(name, k - 1, t) {
        var j := TriedKeyOf(name, k - 1, t, key);
        CandidateKeysDiffer(name, j, k - 1, t);
      }
    }
  }

  /** The name given for the sanitized name when the keys `used` are taken: it, or the first free candidate. */
  ghost predicate FirstFree(sanitized: string, used: set<string>, name: string, t: CaseTable) {
    && Key(name, t) !in used
    && (name == sanitized ||
        (Key(sanitized, t) in used &&
         exists k :: k >= 2 && name == Candidate(sanitized, k) && TriedKeys(sanitized, k, t) <= used))
  }

  /** `unique_file_name` for one directory.  The search for a free suffix ends. */
  method UniqueFileName(raw: string, used: set<string>, t: CaseTable) returns (name: string, used': set<string>)
    requires t.Valid()
    ensures FirstFree(SanitizeFileName(raw), used, name, t)
    ensures used' == used + {Key(name, t)}
    ensures SafeName(name)
  {
    var sanitized := SanitizeFileName(raw);
    SanitizedIsSafe(raw);
    hide SafeName, Digits, SplitExtension, SanitizeFileName, CaseTable.Valid;
    name := sanitized;
    var split := SplitExtension(sanitized);
    var suffix := 2;
    while Key(name, t) in used
      invariant suffix >= 2
      invariant if suffix == 2 then name == sanitized else name == Candidate(sanitized, suffix - 1)
      invariant suffix > 2 ==> Key(sanitized, t) in used && TriedKeys(sanitized, suffix - 1, t) <= used
      decreases |used| + 3 - suffix
    {
      if suffix > 2 {
        assert TriedKeys(sanitized, suffix, t) <= used;
        TriedKeysCount(sanitized, suffix, t);
        Sets.SubsetCard(TriedKeys(sanitized, suffix, t), used);
      }
      name := split.0 + " (" + Digits(suffix) + ")" + split.1;
      suffix := suffix + 1;
    }
    used' := used + {Key(name, t)};
    if suffix > 2 {
      CandidateIsSafe(sanitized, suffix - 1);
    }
  }

  ghost predicate AllowedCharacters(s: string) {
    forall i :: 0 <= i < |s| ==> !Forbidden(s[i])
  }

  lemma DigitIsAllowed(c: char)
    requires '0' <= c <= '9'
    ensures !Forbidden(c)
  {
  }

  lemma AllowedConcat(a: string, b: string)
    ensures AllowedCharacters(a + b) <==> AllowedCharacters(a) && AllowedCharacters(b)
  {
    assert AllowedCharacters(a + b) ==> forall i :: 0 <= i < |a| ==> a[i] == (a + b)[i];
    assert AllowedCharacters(a + b) ==> forall i :: 0 <= i < |b| ==> b[i] == (a + b)[|a| + i];
  }

  lemma DigitsAreAllowed(k: nat)
    ensures AllowedCharacters(Digits(k))
  {
    DigitsAreDigits(k);
    forall i | 0 <= i < |Digits(k)|
      ensures !Forbidden(Digits(k)[i])
    {
      DigitIsAllowed(Digits(k)[i]);
    }
  }

  /** A numbered form ends as the name does, or in a bracket. */
  lemma CandidateIsAllowed(name: string, k: nat)
    requires Allowed(name)
    ensures Allowed(Candidate(name, k))
  {
    assert AllowedCharacters(" (") && AllowedCharacters(")");
    assert AllowedCharacters(name);
    hide Forbidden, AllowedCharacters, Digits;
    SplitWhole(name);
    DigitsAreAllowed(k);
    var stem, extension := SplitExtension(name).0, SplitExtension(name).1;
    AllowedConcat(stem, extension);
    AllowedConcat(stem, " (");
    AllowedConcat(stem + " (", Digits(k));
    AllowedConcat(stem + " (" + Digits(k), ")");
    AllowedConcat(stem + " (" + Digits(k) + ")", extension);
    AllowedName(Candidate(name, k));
    if extension != "" {
      assert Candidate(name, k)[|Candidate(name, k)| - 1] == extension[|extension| - 1] == name[|name| - 1];
    }
  }

  lemma AllowedName(name: string)
    requires AllowedCharacters(name)
    ensures forall i :: 0 <= i < |name| ==> !Forbidden(name[i])
  {
  }

  /** What comes before the first dot decides. */
  lemma SameFirstPart(a: string, b: string, dot: nat)
    requires dot == FirstDot(a) && dot < |a| && dot < |b| && a[..dot] == b[..dot] && b[dot] == '.'
    ensures IsWindowsDeviceName(a) == IsWindowsDeviceName(b)
  {
    FirstDotIs(b, dot);
  }

  lemma LongFirstPart(part: string, extension: string)
    requires |part| > 4 && '.' !in part && (extension == "" || extension[0] == '.')
    ensures !IsWindowsDeviceName(part + extension)
  {
    var name := part + extension;
    assert name[..|part|] == part;
    FirstDotIs(name, |part|);
    AsciiUpperAppend(part, 'a');
    hide AsciiUpper, FirstDot;
  }

  /** Its first part is the name's own, or has a number behind it. */
  lemma CandidateIsNoDevice(name: string, k: nat)
    requires SafeName(name)
    ensures !IsWindowsDeviceName(Candidate(name, k))
  {
    SplitWhole(name);
    DigitsAreDigits(k);
    var stem, extension := SplitExtension(name).0, SplitExtension(name).1;
    var numbered := stem + " (" + Digits(k) + ")";
    var dot := FirstDot(name);
    assert '.' !in Digits(k) && Candidate(name, k) == numbered + extension;
    hide IsWindowsDeviceName, SplitExtension, Digits, Candidate, FirstDot;
    if dot < |stem| {
      SameFirstPart(name, numbered + extension, dot);
    } else {
      assert name[..dot][..|stem|] == stem;
      LongFirstPart(numbered, extension);
    }
  }

  /** A numbered form of a name Windows can create is one as well. */
  lemma CandidateIsSafe(name: string, k: nat)
    requires SafeName(name)
    ensures SafeName(Candidate(name, k))
  {
    CandidateIsAllowed(name, k);
    CandidateIsNoDevice(name, k);
  }

  lemma SafeHasNoBackslash(name: string)
    requires SafeName(name)
    ensures '\\' !in name
  {
    assert Forbidden('\\');
  }
}
