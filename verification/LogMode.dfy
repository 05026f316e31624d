/**
  The `mode` parameter of a log definition: two octal numbers, or a symbolic
  `<who><operator><permissions>` form, and the test it puts a log file to.
*/
module LogMode {
  import opened Wrappers

  datatype Error =
    | BadMask             // a non-digit in the numeric mask
    | BadNumber           // something else after the number
    | UnknownWho(c: char)
    | UnknownPermission(c: char)
    | NoOperator

  /** File mode bits; `st_mode` has sixteen. */
  type Bits = bv16

  /**
    The mode wanted, and the mask it is compared under: as the numbers read, or as
    the bits computed from symbols.
  */
  datatype Mode = Number(mode: int, mask: int) | Pattern(bits: Bits, under: Bits)

  const ALL_BITS: Bits := 0xFFF   // 07777

  // ----- Numbers -----

  /** The reader takes `8` for a digit as well. */
  predicate IsDigit(c: char) {
    '0' <= c <= '8'
  }

  function Digit(c: char): nat
    requires IsDigit(c)
  {
    c as int - '0' as int
  }

  predicate AllDigits(s: string) {
    forall i :: 0 <= i < |s| ==> IsDigit(s[i])
  }

  function Octal(s: string): nat
    requires AllDigits(s)
  {
    if s == [] then 0 else Octal(s[..|s| - 1]) * 8 + Digit(s[|s| - 1])
  }

  /** Where the digits that start at `from` end. */
  function DigitsEnd(s: string, from: nat): (end: nat)
    requires from <= |s|
    ensures from <= end <= |s| && AllDigits(s[from..end])
    ensures end < |s| ==> !IsDigit(s[end])
    decreases |s| - from
  {
    if from == |s| || !IsDigit(s[from]) then from
    else
      var end := DigitsEnd(s, from + 1);
      assert s[from..end] == [s[from]] + s[from + 1..end];
      end
  }

  lemma DigitsEndIs(s: string, from: nat, end: nat)
    requires from <= end <= |s| && AllDigits(s[from..end])
    requires end < |s| ==> !IsDigit(s[end])
    ensures DigitsEnd(s, from) == end
  {
    var found := DigitsEnd(s, from);
    assert forall i :: from <= i < end ==> s[i] == s[from..end][i - from];
    assert forall i :: from <= i < found ==> s[i] == s[from..found][i - from];
  }

  /** A missing or zero mask stands for all the bits. */
  function Masked(mode: int, mask: int): Mode {
    Number(mode, if mask == 0 then 4095 else mask)
  }

  function NumericMode(s: string): Result<Mode, Error> {
    var end := DigitsEnd(s, 0);
    var mode := Octal(s[0..end]);
    if end == |s| then Success(Masked(mode, 0))
    else if s[end] != '/' then Failure(BadNumber)
    else
      var stop := DigitsEnd(s, end + 1);
      if stop < |s| then Failure(BadMask) else Success(Masked(mode, Octal(s[end + 1..stop])))
  }

  /** A number up to `cut`, and from a slash there another one. */
  predicate IsNumeric(s: string, cut: nat) {
    && cut <= |s| && (forall i :: 0 <= i < cut ==> '0' <= s[i] <= '8')
    && (cut < |s| ==> s[cut] == '/' && forall i :: cut < i < |s| ==> '0' <= s[i] <= '8')
  }

  /** Exactly the texts of this form are read, as the two numbers; the others fail by where they break it. */
  lemma NumericExactly(s: string) returns (cut: nat)
    ensures cut <= |s| && AllDigits(s[..cut])
    ensures NumericMode(s).Success? <==> IsNumeric(s, cut)
    ensures IsNumeric(s, cut) ==>
              var mask := if cut == |s| then 0 else Octal(s[cut + 1..]);
              NumericMode(s) == Success(Number(Octal(s[..cut]), if mask == 0 then 4095 else mask))
    ensures !IsNumeric(s, cut) ==>
              && cut < |s| && !IsDigit(s[cut])
              && NumericMode(s) == Failure(if s[cut] == '/' then BadMask else BadNumber)
    ensures forall other :: IsNumeric(s, other) ==> other == cut
  {
    cut := DigitsEnd(s, 0);
    assert s[0..cut] == s[..cut];
    assert forall i :: 0 <= i < cut ==> s[..cut][i] == s[i];
    if cut < |s| && s[cut] == '/' {
      var stop := DigitsEnd(s, cut + 1);
      assert forall i :: cut + 1 <= i < stop ==> s[cut + 1..stop][i - cut - 1] == s[i];
      assert stop == |s| ==> s[cut + 1..stop] == s[cut + 1..];
    }
  }

  // ----- Without the digit 8 -----

  /** Where the octal digits that start at `from` end. */
  function OctalEnd(s: string, from: nat): (end: nat)
    requires from <= |s|
    ensures from <= end <= DigitsEnd(s, from) && AllDigits(s[from..end])
    ensures '8' !in s[from..end]
    ensures end < DigitsEnd(s, from) ==> s[end] == '8'
    decreases |s| - from
  {
    if from == |s| || !('0' <= s[from] <= '7') then from
    else
      var end := OctalEnd(s, from + 1);
      assert s[from..end] == [s[from]] + s[from + 1..end];
      end
  }

  /** The numeric form as it would be read with octal digits alone. */
  function StrictMode(s: string): Result<Mode, Error> {
    var end := OctalEnd(s, 0);
    var mode := Octal(s[0..end]);
    if end == |s| then Success(Masked(mode, 0))
    else if s[end] != '/' then Failure(BadNumber)
    else
      var stop := OctalEnd(s, end + 1);
      if stop < |s| then Failure(BadMask) else Success(Masked(mode, Octal(s[end + 1..stop])))
  }

  lemma OctalEndIs(s: string, from: nat)
    requires from <= |s|
    ensures OctalEnd(s, from) == DigitsEnd(s, from) <==> '8' !in s[from..DigitsEnd(s, from)]
  {
    var end, stop := OctalEnd(s, from), DigitsEnd(s, from);
    if end < stop {
      assert s[from..stop][end - from] == '8';
    }
  }

  /** What a text in two parts contains. */
  lemma InParts(s: string, end: nat, c: char)
    requires end < |s| && s[end] != c
    ensures c in s <==> c in s[0..end] || c in s[end + 1..|s|]
  {
    assert s == s[0..end] + [s[end]] + s[end + 1..|s|];
  }

  /**
    A text is accepted with octal digits alone exactly when it is accepted and has
    no `8`; it then means the same.
  */
  lemma EightIsTheDifference(s: string)
    ensures StrictMode(s).Success? <==> NumericMode(s).Success? && '8' !in s
    ensures NumericMode(s).Success? ==> (StrictMode(s) == NumericMode(s) <==> '8' !in s)
  {
    var end := DigitsEnd(s, 0);
    OctalEndIs(s, 0);
    if end == |s| {
      assert s[0..end] == s;
    } else if s[end] == '/' {
      OctalEndIs(s, end + 1);
      InParts(s, end, '8');
    }
  }

  /** With it, `8` is one more than seven, and `18` reads as `20`. */
  lemma EightIsRead()
    ensures NumericMode("8") == Success(Number(8, 4095)) && StrictMode("8") == Failure(BadNumber)
    ensures NumericMode("18") == NumericMode("20") == Success(Number(16, 4095))
  {
    DigitsEndIs("8", 0, 1);
    DigitsEndIs("18", 0, 2);
    DigitsEndIs("20", 0, 2);
    assert "8"[..0] == "" && "18"[..1] == "1" && "1"[..0] == "" && "20"[..1] == "2" && "2"[..0] == "";
    EightIsTheDifference("8");
  }

  // ----- Printing -----

  function OctalText(n: nat): (s: string)
    ensures |s| > 0 && forall i :: 0 <= i < |s| ==> '0' <= s[i] <= '7'
  {
    if n < 8 then ['0' + n as char] else OctalText(n / 8) + ['0' + (n % 8) as char]
  }

  lemma {:induction false} OctalOfText(n: nat)
    ensures Octal(OctalText(n)) == n
  {
    if n >= 8 {
      var s := OctalText(n);
      OctalOfText(n / 8);
      assert s[..|s| - 1] == OctalText(n / 8);
    } else {
      assert OctalText(n)[..0] == [];
    }
  }

  /** The two numbers of a text with a slash. */
  lemma TwoNumbers(a: string, b: string)
    requires AllDigits(a) && AllDigits(b)
    ensures NumericMode(a + ['/'] + b) == Success(Masked(Octal(a), Octal(b)))
  {
    var s := a + ['/'] + b;
    assert s[0..|a|] == a && s[|a| + 1..|s|] == b;
    DigitsEndIs(s, 0, |a|);
    DigitsEndIs(s, |a| + 1, |s|);
  }

  /** A printed mode and mask are read back, a zero mask as all the bits. */
  lemma NumericRoundTrip(mode: nat, mask: nat)
    ensures NumericMode(OctalText(mode) + ['/'] + OctalText(mask))
         == Success(Number(mode, if mask == 0 then 4095 else mask))
  {
    TwoNumbers(OctalText(mode), OctalText(mask));
    OctalOfText(mode);
    OctalOfText(mask);
  }

  lemma NumericRoundTripWithoutMask(mode: nat)
    ensures NumericMode(OctalText(mode)) == Success(Number(mode, 4095))
  {
    var s := OctalText(mode);
    assert s[0..|s|] == s;
    DigitsEndIs(s, 0, |s|);
    OctalOfText(mode);
  }

  /** The number read so far never exceeds the final one: an `int` that holds it never overflows. */
  lemma {:induction false} OctalGrows(s: string, i: nat)
    requires AllDigits(s) && i <= |s|
    ensures Octal(s[..i]) <= Octal(s)
    decreases |s|
  {
    if i == |s| {
      assert s[..i] == s;
    } else {
      assert s[..|s| - 1][..i] == s[..i];
      OctalGrows(s[..|s| - 1], i);
    }
  }

  // ----- Symbols -----

  const OWNER: Bits := 0x1C0      // 0700
  const GROUP: Bits := 0x038      // 0070
  const OTHER: Bits := 0x007      // 0007
  const EVERYONE: Bits := 0x1FF   // 0777
  const STICKY: Bits := 0x200     // 01000
  const SET_GROUP: Bits := 0x400  // 02000
  const SET_USER: Bits := 0x800   // 04000

  predicate IsWho(c: char) {
    c in {'u', 'g', 'o', 'a'}
  }

  predicate IsOperator(c: char) {
    c in {'+', '-', '='}
  }

  predicate IsPermission(c: char) {
    c in {'r', 'w', 'x', 's', 't'}
  }

  function Who(c: char): Bits
    requires IsWho(c)
  {
    match c case 'u' => OWNER case 'g' => GROUP case 'o' => OTHER case _ => EVERYONE
  }

  /** The section bits a list of letters selects. */
  function Flags(who: string): Bits
    requires forall i :: 0 <= i < |who| ==> IsWho(who[i])
  {
    if who == [] then 0 else Flags(who[..|who| - 1]) | Who(who[|who| - 1])
  }

  lemma FlagsGrow(who: string, j: nat)
    requires j < |who| && forall i :: 0 <= i <= j ==> IsWho(who[i])
    ensures Flags(who[..j + 1]) == Flags(who[..j]) | Who(who[j])
  {
    assert who[..j + 1][..j] == who[..j];
  }

  /** The permission letters: rwx in the low three bits, and which of `s` and `t` occur. */
  datatype Permissions = Permissions(rwx: Bits, special: bool, sticky: bool)

  function Permission(p: Permissions, c: char): Permissions
    requires IsPermission(c)
  {
    match c
    case 'r' => p.(rwx := p.rwx | 4)
    case 'w' => p.(rwx := p.rwx | 2)
    case 'x' => p.(rwx := p.rwx | 1)
    case 's' => p.(special := true)
    case _ => p.(sticky := true)
  }

  function AllPermissions(s: string): Permissions
    requires forall i :: 0 <= i < |s| ==> IsPermission(s[i])
  {
    if s == [] then Permissions(0, false, false)
    else Permission(AllPermissions(s[..|s| - 1]), s[|s| - 1])
  }

  /** The bits beyond rwx. */
  function Upper(flags: Bits, p: Permissions): Bits {
    (if p.sticky then STICKY else 0)
    | (if p.special && flags & OWNER != 0 then SET_USER else 0)
    | (if p.special && flags & GROUP != 0 then SET_GROUP else 0)
  }

  /** The bits as computed: the permissions are multiplied by the sections. */
  function Expanded(flags: Bits, p: Permissions): Bits {
    (p.rwx * flags) | Upper(flags, p)
  }

  /** Bits and the mask they are compared under; a zero mask stands for all the bits. */
  function Under(bits: Bits, mask: Bits): Mode {
    Pattern(bits, if mask == 0 then ALL_BITS else mask)
  }

  /** The one shape of symbolic mode: letters for whom, one operator, permissions to the end. */
  ghost predicate Grammatical(s: string) {
    exists w: nat :: HasShape(s, w)
  }

  predicate HasShape(s: string, w: nat) {
    && w < |s|
    && (forall i :: 0 <= i < w ==> IsWho(s[i]))
    && IsOperator(s[w])
    && (forall i :: w < i < |s| ==> IsPermission(s[i]))
  }

  /** The letters of the documented form. */
  lemma ShapeExactly(s: string, w: nat)
    ensures HasShape(s, w)
       <==> && w < |s| && (forall i :: 0 <= i < w ==> s[i] == 'u' || s[i] == 'g' || s[i] == 'o' || s[i] == 'a')
            && (s[w] == '+' || s[w] == '-' || s[w] == '=')
            && forall i :: w < i < |s| ==>
                 s[i] == 'r' || s[i] == 'w' || s[i] == 'x' || s[i] == 's' || s[i] == 't'
  {
  }

  /** Letters for whom, then an operator: no shape has its operator anywhere else. */
  lemma OperatorIsAt(s: string, v: nat, w: nat)
    requires HasShape(s, v) && w < |s| && IsOperator(s[w]) && forall i :: 0 <= i < w ==> IsWho(s[i])
    ensures v == w
  {
    assert !IsWho(s[v]) && !IsWho(s[w]) && !IsPermission(s[w]);
  }

  // What a symbolic mode says, read off its text.

  /** The sections it is about: everyone when it names none. */
  function SectionOf(s: string, w: nat): Bits
    requires HasShape(s, w)
  {
    if Flags(s[..w]) == 0 then EVERYONE else Flags(s[..w])
  }

  function PermissionsOf(s: string, w: nat): Permissions
    requires HasShape(s, w)
  {
    AllPermissions(s[w + 1..])
  }

  /** The bits as computed. */
  function BitsOf(s: string, w: nat): Bits
    requires HasShape(s, w)
  {
    Expanded(SectionOf(s, w), PermissionsOf(s, w))
  }

  /** The mode a symbolic form stands for. */
  function SymbolicMode(s: string, w: nat): Mode
    requires HasShape(s, w)
  {
    var bits := BitsOf(s, w);
    match s[w]
    case '+' => Under(bits, bits)
    case '-' => Under(bits ^ EVERYONE, bits)
    case _ => Under(bits, ALL_BITS)
  }

  // ----- The loops of the source -----

  lemma DigitsGrow(s: string, from: nat, end: nat)
    requires from <= end < |s| && AllDigits(s[from..end]) && IsDigit(s[end])
    ensures AllDigits(s[from..end + 1])
    ensures Octal(s[from..end + 1]) == Octal(s[from..end]) * 8 + Digit(s[end])
  {
    assert s[from..end + 1] == s[from..end] + [s[end]];
    assert s[from..end + 1][..end - from] == s[from..end];
  }

  method ReadDigits(s: string, from: nat) returns (number: nat, end: nat)
    requires from <= |s|
    ensures end == DigitsEnd(s, from) && number == Octal(s[from..end])
  {
    number, end := 0, from;
    while end < |s| && IsDigit(s[end])
      invariant from <= end <= |s| && AllDigits(s[from..end]) && number == Octal(s[from..end])
    {
      DigitsGrow(s, from, end);
      number := number * 8 + Digit(s[end]);
      end := end + 1;
    }
    DigitsEndIs(s, from, end);
  }

  method ParseNumber(s: string) returns (r: Result<Mode, Error>)
    requires |s| > 0 && IsDigit(s[0])
    ensures r == NumericMode(s)
  {
    var mode, j := ReadDigits(s, 0);
    var mask := 0;
    if j < |s| && s[j] == '/' {
      mask, j := ReadDigits(s, j + 1);
      if j < |s| { return Failure(BadMask); }
    }
    if j != |s| { return Failure(BadNumber); }
    r := Success(Masked(mode, mask));
  }

  /** The letters before the operator. */
  method ParseWho(s: string) returns (r: Result<Bits, Error>, j: nat)
    requires |s| > 0
    ensures j <= |s|
    ensures r.Success? ==>
              && j > 0 && (forall i :: 0 <= i < j - 1 ==> IsWho(s[i])) && IsOperator(s[j - 1])
              && r.value == Flags(s[..j - 1])
    ensures r.Failure? ==>
              && (forall i :: 0 <= i < j ==> IsWho(s[i]))
              && (if j == |s| then r.error == NoOperator
                  else !IsWho(s[j]) && !IsOperator(s[j]) && r.error == UnknownWho(s[j]))
  {
    var flags: Bits := 0;
    j := 0;
    while j < |s| && !IsOperator(s[j])
      invariant j <= |s|
      invariant forall i :: 0 <= i < j ==> IsWho(s[i])
      invariant flags == Flags(s[..j])
    {
      if !IsWho(s[j]) { return Failure(UnknownWho(s[j])), j; }
      FlagsGrow(s, j);
      flags := flags | Who(s[j]);
      j := j + 1;
    }
    if j == |s| { return Failure(NoOperator), j; }
    return Success(flags), j + 1;
  }

  method ParsePermissions(s: string) returns (r: Result<Permissions, Error>)
    ensures r.Success? <==> forall i :: 0 <= i < |s| ==> IsPermission(s[i])
    ensures r.Success? ==> r.value == AllPermissions(s)
    ensures r.Failure? ==> r.error.UnknownPermission? && r.error.c in s && !IsPermission(r.error.c)
  {
    var p := Permissions(0, false, false);
    for j := 0 to |s|
      invariant forall i :: 0 <= i < j ==> IsPermission(s[i])
      invariant p == AllPermissions(s[..j])
    {
      if !IsPermission(s[j]) { return Failure(UnknownPermission(s[j])); }
      assert s[..j + 1][..j] == s[..j];
      p := Permission(p, s[j]);
    }
    assert s[..|s|] == s;
    r := Success(p);
  }

  /** A symbolic mode is accepted exactly when it has the documented shape, to its last character. */
  method ParseSymbols(s: string) returns (r: Result<Mode, Error>)
    requires |s| > 0
    ensures r.Success? <==> Grammatical(s)
    ensures r.Failure? ==>
              match r.error
              case UnknownWho(c) => c in s && !IsWho(c) && !IsOperator(c)
              case UnknownPermission(c) => c in s && !IsPermission(c)
              case NoOperator => forall i :: 0 <= i < |s| ==> IsWho(s[i])
              case _ => false
    ensures r.Success? ==> forall w: nat :: HasShape(s, w) ==> r.value == SymbolicMode(s, w)
  {
    var who, j := ParseWho(s);
    if who.Failure? {
      assert !Grammatical(s) by {
        forall w: nat
          ensures !HasShape(s, w)
        {
          assert w < |s| && IsOperator(s[w]) ==> !IsWho(s[w]);
        }
      }
      return Failure(who.error);
    }
    var p := ParsePermissions(s[j..]);
    ghost var w := j - 1;
    assert forall i :: j <= i < |s| ==> s[i] == s[j..][i - j];
    forall v: nat | HasShape(s, v)
      ensures v == w
    {
      OperatorIsAt(s, v, w);
    }
    if p.Failure? { return Failure(p.error); }
    assert HasShape(s, w);
    var section := if who.value == 0 then EVERYONE else who.value;
    var bits := Expanded(section, p.value);
    match s[j - 1]
    case '+' => r := Success(Under(bits, bits));
    case '-' => r := Success(Under(bits ^ EVERYONE, bits));
    case _ => r := Success(Under(bits, ALL_BITS));
  }

  /** An empty parameter sets nothing and masks nothing. */
  method ParseMode(s: string) returns (r: Result<Mode, Error>)
    ensures s == [] ==> r == Success(Number(0, 4095))
    ensures |s| > 0 && IsDigit(s[0]) ==> r == NumericMode(s)
    ensures |s| > 0 && !IsDigit(s[0]) ==> (r.Success? <==> Grammatical(s))
    ensures |s| > 0 && !IsDigit(s[0]) && r.Success? ==>
              forall w: nat :: HasShape(s, w) ==> r.value == SymbolicMode(s, w)
  {
    if s == [] { return Success(Masked(0, 0)); }
    if IsDigit(s[0]) { r := ParseNumber(s); } else { r := ParseSymbols(s); }
  }

  // ----- What a mode accepts -----

  const FILE_TYPE: Bits := 0xF000   // S_IFMT
  const REGULAR: Bits := 0x8000     // S_IFREG

  /** The mode of a regular file. */
  predicate IsRegular(fileMode: Bits) {
    fileMode & FILE_TYPE == REGULAR
  }

  /** The test a log file is put to: a zero mode accepts everything. */
  predicate Accepts(bits: Bits, under: Bits, fileMode: Bits) {
    bits == 0 || fileMode & under == bits
  }

  /** No bit of `part` is missing from `whole`. */
  predicate Within(part: Bits, whole: Bits) {
    part & !whole == 0
  }

  /** The test under a symbolic mode. */
  predicate Admits(mode: Mode, fileMode: Bits)
    requires mode.Pattern?
  {
    Accepts(mode.bits, mode.under, fileMode)
  }

  lemma PlusBits(bits: Bits, fileMode: Bits)
    ensures Admits(Under(bits, bits), fileMode) <==> Within(bits, fileMode)
  {
    PlusTest(bits, if bits == 0 then ALL_BITS else bits, fileMode);
  }

  lemma PlusTest(bits: Bits, under: Bits, fileMode: Bits)
    requires bits == 0 || under == bits
    ensures Accepts(bits, under, fileMode) <==> Within(bits, fileMode)
  {
  }

  /** A `+` mode accepts a file exactly when every bit it computes is set. */
  lemma PlusAcceptsExactly(s: string, w: nat, fileMode: Bits)
    requires HasShape(s, w) && s[w] == '+'
    ensures Admits(SymbolicMode(s, w), fileMode) <==> Within(BitsOf(s, w), fileMode)
  {
    PlusBits(BitsOf(s, w), fileMode);
  }

  lemma EqualBits(bits: Bits, fileMode: Bits)
    ensures Admits(Under(bits, ALL_BITS), fileMode) <==> bits == 0 || fileMode & 0xFFF == bits
  {
  }

  /** An `=` mode accepts a file exactly when its bits are the ones computed, unless these are none at all. */
  lemma EqualAcceptsExactly(s: string, w: nat, fileMode: Bits)
    requires HasShape(s, w) && s[w] == '='
    ensures Admits(SymbolicMode(s, w), fileMode) <==> BitsOf(s, w) == 0 || fileMode & 0xFFF == BitsOf(s, w)
  {
    EqualBits(BitsOf(s, w), fileMode);
  }

  /**
    What is left of `-`: every file for all of `rwx`, nothing for a part of
    `rwx`, and otherwise only files with the remaining bits set.
  */
  predicate MinusTest(bits: Bits, fileMode: Bits) {
    if bits == 0 then fileMode & 0xFFF == 0x1FF
    else bits == 0x1FF || (Within(0x1FF, bits) && fileMode & bits == bits & !0x1FF)
  }

  lemma MinusBits(bits: Bits, fileMode: Bits)
    ensures Admits(Under(bits ^ EVERYONE, bits), fileMode) <==> MinusTest(bits, fileMode)
  {
    MinusUnder(bits, if bits == 0 then ALL_BITS else bits, fileMode);
  }

  lemma MinusUnder(bits: Bits, under: Bits, fileMode: Bits)
    requires under == if bits == 0 then ALL_BITS else bits
    ensures Accepts(bits ^ EVERYONE, under, fileMode) <==> MinusTest(bits, fileMode)
  {
  }

  lemma MinusAcceptsExactly(s: string, w: nat, fileMode: Bits)
    requires HasShape(s, w) && s[w] == '-'
    ensures Admits(SymbolicMode(s, w), fileMode) <==> MinusTest(BitsOf(s, w), fileMode)
  {
    MinusBits(BitsOf(s, w), fileMode);
  }

  // ----- Against the documented expansion -----

  /** The sections as letters select them. */
  function Sections(u: bool, g: bool, o: bool): Bits {
    (if u then OWNER else 0) | (if g then GROUP else 0) | (if o then OTHER else 0)
  }

  /** Each permission in all three places (0111), ANDed with the sections. */
  function Documented(flags: Bits, p: Permissions): Bits {
    ((p.rwx * 0x49) & flags) | Upper(flags, p)
  }

  /** The bits a symbolic mode is documented to stand for. */
  function DocumentedBitsOf(s: string, w: nat): Bits
    requires HasShape(s, w)
  {
    Documented(SectionOf(s, w), PermissionsOf(s, w))
  }

  lemma SectionsJoin(u: bool, g: bool, o: bool, c: char)
    requires IsWho(c)
    ensures Sections(u, g, o) | Who(c)
         == Sections(u || c == 'u' || c == 'a', g || c == 'g' || c == 'a', o || c == 'o' || c == 'a')
  {
  }

  /** A list of letters names a section. */
  predicate Selects(who: string, letter: char) {
    letter in who || 'a' in who
  }

  lemma SelectsMore(who: string, c: char, letter: char)
    ensures Selects(who + [c], letter) <==> Selects(who, letter) || c == letter || c == 'a'
  {
  }

  lemma {:induction false} FlagsAreSections(who: string)
    requires forall i :: 0 <= i < |who| ==> IsWho(who[i])
    ensures Flags(who) == Sections(Selects(who, 'u'), Selects(who, 'g'), Selects(who, 'o'))
  {
    if who != [] {
      var before, c := who[..|who| - 1], who[|who| - 1];
      assert who == before + [c];
      FlagsAreSections(before);
      SelectsMore(before, c, 'u');
      SelectsMore(before, c, 'g');
      SelectsMore(before, c, 'o');
      SectionsJoin(Selects(before, 'u'), Selects(before, 'g'), Selects(before, 'o'), c);
    }
  }

  predicate IsRwx(c: char) {
    c in {'r', 'w', 'x'}
  }

  /** The permissions, given which letters occur. */
  function Rwx(r: bool, w: bool, x: bool): Bits {
    (if r then 4 else 0) | (if w then 2 else 0) | (if x then 1 else 0)
  }

  lemma OneMorePermission(r: bool, w: bool, x: bool, c: char)
    requires IsPermission(c)
    ensures Permission(Permissions(Rwx(r, w, x), false, false), c).rwx
         == Rwx(r || c == 'r', w || c == 'w', x || c == 'x')
  {
  }

  lemma {:induction false} PermissionsAsListed(s: string)
    requires forall i :: 0 <= i < |s| ==> IsPermission(s[i])
    ensures AllPermissions(s) == Permissions(Rwx('r' in s, 'w' in s, 'x' in s), 's' in s, 't' in s)
  {
    if s != [] {
      var before, c := s[..|s| - 1], s[|s| - 1];
      assert s == before + [c];
      PermissionsAsListed(before);
      OneMorePermission('r' in before, 'w' in before, 'x' in before, c);
    }
  }

  lemma RwxIsSmall(r: bool, w: bool, x: bool)
    ensures Rwx(r, w, x) < 8 && (Rwx(r, w, x) == 0 <==> !r && !w && !x)
  {
  }

  lemma RwxAsListed(s: string)
    requires forall i :: 0 <= i < |s| ==> IsPermission(s[i])
    ensures AllPermissions(s).rwx < 8
    ensures AllPermissions(s).rwx == 0 <==> forall i :: 0 <= i < |s| ==> !IsRwx(s[i])
  {
    PermissionsAsListed(s);
    RwxIsSmall('r' in s, 'w' in s, 'x' in s);
    assert (forall i :: 0 <= i < |s| ==> !IsRwx(s[i])) <==> 'r' !in s && 'w' !in s && 'x' !in s;
  }

  /** The product repeats a permission seven times over. */
  lemma ProductIsDocumentedExactly(u: bool, g: bool, o: bool, p: Permissions)
    requires p.rwx < 8 && (u || g || o)
    ensures Expanded(Sections(u, g, o), p) == Documented(Sections(u, g, o), p) <==> p.rwx == 0
  {
  }

  /** Whether a symbolic mode is about a section: it names it, or none at all. */
  predicate IsAbout(s: string, w: nat, letter: char)
    requires w <= |s|
  {
    w == 0 || Selects(s[..w], letter)
  }

  /** The section letters of a symbolic mode, as booleans. */
  lemma SectionsOf(s: string, w: nat) returns (u: bool, g: bool, o: bool)
    requires HasShape(s, w)
    ensures u == IsAbout(s, w, 'u') && g == IsAbout(s, w, 'g') && o == IsAbout(s, w, 'o')
    ensures (u || g || o) && SectionOf(s, w) == Sections(u, g, o)
  {
    u, g, o := IsAbout(s, w, 'u'), IsAbout(s, w, 'g'), IsAbout(s, w, 'o');
    FlagsAreSections(s[..w]);
    if w > 0 {
      assert s[0] in s[..w] && IsWho(s[0]);
      SomeSection(u, g, o);
    }
  }

  lemma SomeSection(u: bool, g: bool, o: bool)
    requires u || g || o
    ensures Sections(u, g, o) != 0
  {
  }

  /** The documented bits, one by one. */
  predicate IsDocumented(
    bits: Bits, u: bool, g: bool, o: bool, r: bool, w: bool, x: bool, special: bool, sticky: bool)
  {
    && (bits & 0x100 != 0 <==> u && r) && (bits & 0x080 != 0 <==> u && w) && (bits & 0x040 != 0 <==> u && x)
    && (bits & 0x020 != 0 <==> g && r) && (bits & 0x010 != 0 <==> g && w) && (bits & 0x008 != 0 <==> g && x)
    && (bits & 0x004 != 0 <==> o && r) && (bits & 0x002 != 0 <==> o && w) && (bits & 0x001 != 0 <==> o && x)
    && (bits & 0x800 != 0 <==> u && special) && (bits & 0x400 != 0 <==> g && special)
    && (bits & 0x200 != 0 <==> sticky) && bits & 0xF000 == 0
  }

  lemma DocumentedBits(u: bool, g: bool, o: bool, r: bool, w: bool, x: bool, special: bool, sticky: bool)
    ensures IsDocumented(Documented(Sections(u, g, o), Permissions(Rwx(r, w, x), special, sticky)),
              u, g, o, r, w, x, special, sticky)
  {
  }

  /** What is documented of a symbolic mode, by its letters. */
  lemma DocumentedExactly(s: string, w: nat)
    requires HasShape(s, w)
    ensures var named := s[w + 1..];
            IsDocumented(DocumentedBitsOf(s, w), IsAbout(s, w, 'u'), IsAbout(s, w, 'g'), IsAbout(s, w, 'o'),
              'r' in named, 'w' in named, 'x' in named, 's' in named, 't' in named)
  {
    var u, g, o := SectionsOf(s, w);
    var named := s[w + 1..];
    PermissionsAsListed(named);
    DocumentedBits(u, g, o, 'r' in named, 'w' in named, 'x' in named, 's' in named, 't' in named);
  }

  /** What is computed of it: a product instead. */
  predicate IsComputed(
    bits: Bits, u: bool, g: bool, o: bool, r: bool, w: bool, x: bool, special: bool, sticky: bool)
  {
    bits
    == (((if r then 4 else 0) + (if w then 2 else 0) + (if x then 1 else 0))
        * ((if u then 0x1C0 else 0) + (if g then 0x038 else 0) + (if o then 0x007 else 0)))
       | (if special && u then 0x800 else 0) | (if special && g then 0x400 else 0) | (if sticky then 0x200 else 0)
  }

  lemma ComputedBits(
    bits: Bits, flags: Bits, p: Permissions,
    u: bool, g: bool, o: bool, r: bool, w: bool, x: bool, special: bool, sticky: bool)
    requires flags == Sections(u, g, o) && p == Permissions(Rwx(r, w, x), special, sticky)
    requires bits == Expanded(flags, p)
    ensures IsComputed(bits, u, g, o, r, w, x, special, sticky)
  {
  }

  lemma ComputedExactly(s: string, w: nat)
    requires HasShape(s, w)
    ensures var named := s[w + 1..];
            IsComputed(BitsOf(s, w), IsAbout(s, w, 'u'), IsAbout(s, w, 'g'), IsAbout(s, w, 'o'),
              'r' in named, 'w' in named, 'x' in named, 's' in named, 't' in named)
  {
    var u, g, o := SectionsOf(s, w);
    var named := s[w + 1..];
    PermissionsAsListed(named);
    ComputedBits(BitsOf(s, w), SectionOf(s, w), PermissionsOf(s, w),
      u, g, o, 'r' in named, 'w' in named, 'x' in named, 's' in named, 't' in named);
  }

  /** The bits of a symbolic mode are the documented ones exactly when it names no r, w or x. */
  lemma ExpansionIsDocumentedExactly(s: string, w: nat)
    requires HasShape(s, w)
    ensures BitsOf(s, w) == DocumentedBitsOf(s, w) <==> forall i :: w < i < |s| ==> !IsRwx(s[i])
  {
    var u, g, o := SectionsOf(s, w);
    RwxAsListed(s[w + 1..]);
    ProductIsDocumentedExactly(u, g, o, PermissionsOf(s, w));
    assert forall i :: w < i < |s| ==> s[i] == s[w + 1..][i - w - 1];
  }

  /** A regular file that shows `-` at fault. */
  function Misjudged(bits: Bits): Bits {
    if bits == EVERYONE then REGULAR | EVERYONE else REGULAR
  }

  lemma MinusIsWrong(bits: Bits, documented: Bits)
    requires bits & FILE_TYPE == 0 && documented & FILE_TYPE == 0
    requires bits == EVERYONE ==> documented & EVERYONE != 0
    ensures IsRegular(Misjudged(bits))
    ensures MinusTest(bits, Misjudged(bits)) != (Misjudged(bits) & documented == 0)
  {
  }

  /** No permission reaches into the type of a file. */
  lemma BitsArePermissions(u: bool, g: bool, o: bool, p: Permissions)
    requires p.rwx < 8
    ensures Expanded(Sections(u, g, o), p) & FILE_TYPE == 0
    ensures Documented(Sections(u, g, o), p) & FILE_TYPE == 0
  {
  }

  lemma SomethingIsDocumented(u: bool, g: bool, o: bool, p: Permissions)
    requires p.rwx < 8 && (u || g || o) && Expanded(Sections(u, g, o), p) == EVERYONE
    ensures Documented(Sections(u, g, o), p) & EVERYONE != 0
  {
  }

  /**
    There is no `-` mode that does what its comment says, to reject exactly the
    files that have one of its bits, computed or documented: here is a file it
    gets wrong.
  */
  lemma MinusIsNeverAsDocumented(s: string, w: nat)
    requires HasShape(s, w) && s[w] == '-'
    ensures var fileMode := Misjudged(BitsOf(s, w));
            && IsRegular(fileMode)
            && Admits(SymbolicMode(s, w), fileMode) != (fileMode & BitsOf(s, w) == 0)
            && Admits(SymbolicMode(s, w), fileMode) != (fileMode & DocumentedBitsOf(s, w) == 0)
  {
    MinusAcceptsExactly(s, w, Misjudged(BitsOf(s, w)));
    var u, g, o := SectionsOf(s, w);
    RwxAsListed(s[w + 1..]);
    BitsArePermissions(u, g, o, PermissionsOf(s, w));
    MinusIsWrong(BitsOf(s, w), BitsOf(s, w));
    if BitsOf(s, w) == EVERYONE {
      SomethingIsDocumented(u, g, o, PermissionsOf(s, w));
    }
    MinusIsWrong(BitsOf(s, w), DocumentedBitsOf(s, w));
  }

  lemma WithinEachOther(a: Bits, b: Bits)
    requires a & FILE_TYPE == 0 && b & FILE_TYPE == 0
    ensures IsRegular(a | REGULAR) && IsRegular(b | REGULAR)
    ensures Within(a, a | REGULAR) && Within(b, b | REGULAR)
    ensures Within(a, b | REGULAR) && Within(b, a | REGULAR) ==> a == b
  {
  }

  /** A `+` mode accepts the regular files it is documented to accept exactly when it names no r, w or x. */
  lemma PlusIsDocumentedExactly(s: string, w: nat)
    requires HasShape(s, w) && s[w] == '+'
    ensures (forall fileMode ::
               IsRegular(fileMode) ==>
                 (Admits(SymbolicMode(s, w), fileMode) <==> Within(DocumentedBitsOf(s, w), fileMode)))
       <==> forall i :: w < i < |s| ==> !IsRwx(s[i])
  {
    ExpansionIsDocumentedExactly(s, w);
    var a, b := BitsOf(s, w), DocumentedBitsOf(s, w);
    forall fileMode
      ensures Admits(SymbolicMode(s, w), fileMode) <==> Within(a, fileMode)
    {
      PlusAcceptsExactly(s, w, fileMode);
    }
    var u, g, o := SectionsOf(s, w);
    RwxAsListed(s[w + 1..]);
    BitsArePermissions(u, g, o, PermissionsOf(s, w));
    WithinEachOther(a, b);
    assert Admits(SymbolicMode(s, w), a | REGULAR) && Within(b, b | REGULAR);
  }
}
