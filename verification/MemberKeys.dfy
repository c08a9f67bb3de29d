/** The keys of the cluster map that name a member or a node: how they are printed into a
    buffer, and how `sscanf` reads them back. */
module MemberKeys {
  import opened Uint32

  const MEMBERS_PREFIX := "runtime.totem.pg.mrp.srp.members."
  const NODELIST_PREFIX := "nodelist.node."
  const INT_LIMIT: int := 0x8000_0000
  const NUL: char := 0 as char

  // ---------- decimal numbers

  predicate IsDigit(c: char) {
    '0' <= c <= '9'
  }

  function DigitOf(d: nat): (c: char)
    requires d < 10
    ensures IsDigit(c) && ValueOf(c) == d
  {
    ('0' as int + d) as char
  }

  function ValueOf(c: char): nat
    requires IsDigit(c)
  {
    c as int - '0' as int
  }

  /** `%u` */
  function Decimal(n: nat): (s: string)
    ensures |s| > 0 && forall i :: 0 <= i < |s| ==> IsDigit(s[i])
  {
    if n < 10 then [DigitOf(n)] else Decimal(n / 10) + [DigitOf(n % 10)]
  }

  function DecimalValue(s: string): nat
    requires forall i :: 0 <= i < |s| ==> IsDigit(s[i])
  {
    if s == [] then 0 else 10 * DecimalValue(s[..|s| - 1]) + ValueOf(s[|s| - 1])
  }

  lemma {:induction false} DecimalRoundTrip(n: nat)
    ensures DecimalValue(Decimal(n)) == n
  {
    if n >= 10 {
      DecimalRoundTrip(n / 10);
      assert Decimal(n)[..|Decimal(n)| - 1] == Decimal(n / 10);
    }
  }

  /** The number zero alone is printed with a zero in front. */
  lemma {:induction false} NoLeadingZero(n: nat)
    ensures Decimal(n)[0] == '0' ==> n == 0
  {
    if n >= 10 {
      NoLeadingZero(n / 10);
    }
  }

  /** A number is printed as the only string of digits that reads as it and has no leading zero. */
  lemma {:induction false} DecimalUnique(s: string)
    requires s != [] && forall i :: 0 <= i < |s| ==> IsDigit(s[i])
    requires s[0] == '0' ==> |s| == 1
    ensures Decimal(DecimalValue(s)) == s
  {
    hide Decimal;
    var n := |s| - 1;
    assert s == s[..n] + [s[n]];
    if n == 0 {
      DigitPrinted(s[0]);
      assert s[..0] == [];
    } else {
      DecimalUnique(s[..n]);
      DecimalStep(DecimalValue(s[..n]), s[n]);
    }
  }

  lemma DigitPrinted(c: char)
    requires IsDigit(c)
    ensures Decimal(ValueOf(c)) == [c]
  {
  }

  lemma DecimalStep(v: nat, c: char)
    requires IsDigit(c) && Decimal(v)[0] != '0'
    ensures Decimal(10 * v + ValueOf(c)) == Decimal(v) + [c]
  {
  }

  // ---------- scanning

  predicate IsSpace(c: char) {
    c == ' ' || 9 <= c as int <= 13
  }

  function SkipSpaces(s: string): string {
    if s != [] && IsSpace(s[0]) then SkipSpaces(s[1..]) else s
  }

  /** The length of the longest prefix of digits. */
  function DigitRun(s: string): (n: nat)
    ensures n <= |s| && (forall i :: 0 <= i < n ==> IsDigit(s[i])) && (n < |s| ==> !IsDigit(s[n]))
  {
    if s != [] && IsDigit(s[0]) then 1 + DigitRun(s[1..]) else 0
  }

  /** The length of the longest prefix without white space. */
  function WordRun(s: string): (n: nat)
    ensures n <= |s| && (forall i :: 0 <= i < n ==> !IsSpace(s[i])) && (n < |s| ==> IsSpace(s[n]))
  {
    if s != [] && !IsSpace(s[0]) then 1 + WordRun(s[1..]) else 0
  }

  /** A conversion fails, or meets a number that is no `int`, of which C says nothing, or succeeds. */
  datatype Scan<+T> = NoMatch | OutOfRange | Scanned(value: T, rest: string)

  /** `%d` */
  function ScanInt(s: string): Scan<int> {
    var t := SkipSpaces(s);
    var negative := t != [] && t[0] == '-';
    var u := if t != [] && (t[0] == '-' || t[0] == '+') then t[1..] else t;
    var n := DigitRun(u);
    if n == 0 then NoMatch
    else
      var magnitude: int := DecimalValue(u[..n]);
      var value := if negative then -magnitude else magnitude;
      if -INT_LIMIT <= value < INT_LIMIT then Scanned(value, u[n..]) else OutOfRange
  }

  /** `%s` */
  function ScanWord(s: string): Scan<string> {
    var t := SkipSpaces(s);
    if WordRun(t) == 0 then NoMatch else Scanned(t[..WordRun(t)], t[WordRun(t)..])
  }

  /** The pattern of `get_member_count`: the prefix and `%d`. */
  function ScanId(key: string): Scan<int> {
    if MEMBERS_PREFIX <= key then ScanInt(key[|MEMBERS_PREFIX|..]) else NoMatch
  }

  /** The pattern of `get_members`: the prefix, `%d`, a dot and `%s`. */
  function ScanIdAndSuffix(key: string): Scan<(int, string)> {
    match ScanId(key)
    case Scanned(id, rest) =>
      if rest != [] && rest[0] == '.' then
        match ScanWord(rest[1..])
        case Scanned(suffix, tail) => Scanned((id, suffix), tail)
        case _ => NoMatch
      else NoMatch
    case OutOfRange => OutOfRange
    case NoMatch => NoMatch
  }

  // ---------- printing

  function Key(prefix: string, id: u32, suffix: string): string {
    prefix + (Decimal(id) + ".") + suffix
  }

  function MembersKey(id: u32, suffix: string): string {
    Key(MEMBERS_PREFIX, id, suffix)
  }

  function NodelistKey(id: u32, suffix: string): string {
    Key(NODELIST_PREFIX, id, suffix)
  }

  /** The string in a buffer: its characters before the first NUL. */
  function CString(s: seq<char>): string {
    if s == [] || s[0] == NUL then [] else [s[0]] + CString(s[1..])
  }

  lemma {:induction false} CStringIs(s: seq<char>, t: string)
    requires |t| < |s| && s[..|t|] == t && s[|t|] == NUL && NUL !in t
    ensures CString(s) == t
  {
    if t != [] {
      assert s[0] == t[0] && t[0] in t;
      assert s[1..][..|t| - 1] == t[1..];
      CStringIs(s[1..], t[1..]);
    }
  }

  method Strlen(buffer: array<char>, ghost end: nat) returns (n: nat)
    requires end < buffer.Length && buffer[end] == NUL
    ensures n == |CString(buffer[..])|
  {
    n := 0;
    while buffer[n] != NUL
      invariant n <= end && NUL !in buffer[..n]
      decreases end - n
    {
      n := n + 1;
    }
    CStringIs(buffer[..], buffer[..n]);
  }

  /** Writes a string with its NUL into the buffer at `start`. */
  method Strcpy(buffer: array<char>, start: nat, s: string)
    requires start + |s| < buffer.Length
    modifies buffer
    ensures buffer[..] == old(buffer[..start]) + s + [NUL] + old(buffer[start + |s| + 1..])
  {
    for i := 0 to |s|
      invariant forall j :: 0 <= j < buffer.Length ==>
                  buffer[j] == if start <= j < start + i then s[j - start] else old(buffer[j])
    {
      buffer[start + i] := s[i];
    }
    buffer[start + |s|] := NUL;
  }

  /** `strcat`, and `sprintf` at the end of the string that the buffer holds. */
  method Strcat(buffer: array<char>, t: string, ghost s: string, ghost tail: seq<char>)
    requires buffer[..] == s + [NUL] + tail && NUL !in s && |t| <= |tail|
    modifies buffer
    ensures buffer[..] == s + t + [NUL] + tail[|t|..]
  {
    hide CString;
    CStringIs(buffer[..], s);
    var end := Strlen(buffer, |s|);
    Strcpy(buffer, end, t);
  }

  /** `memset` of the first bytes. */
  method Clear(buffer: array<char>, count: nat)
    requires count <= buffer.Length
    modifies buffer
    ensures buffer[count..] == old(buffer[count..])
  {
    for i := 0 to count
      invariant buffer[count..] == old(buffer[count..])
    {
      buffer[i] := NUL;
    }
  }

  /** `strcpy` to the front of the buffer. */
  method StartString(buffer: array<char>, s: string, ghost tail: seq<char>)
    requires |s| < buffer.Length && buffer[|s| + 1..] == tail
    modifies buffer
    ensures buffer[..] == s + [NUL] + tail
  {
    Strcpy(buffer, 0, s);
  }

  /** What lies behind the prefix, behind the number, and behind the suffix with their NUL. */
  lemma Tails(before: seq<char>, cleared: seq<char>, prefix: string, number: string, suffix: string)
    returns (behind1: seq<char>, behind2: seq<char>, behind3: seq<char>)
    requires 8 <= |prefix| && |prefix| + |number| + |suffix| < |before| == |cleared|
    requires cleared[8..] == before[8..]
    ensures cleared[|prefix| + 1..] == behind1
    ensures |number| <= |behind1| && behind2 == behind1[|number|..]
    ensures |suffix| <= |behind2| && behind3 == behind2[|suffix|..]
    ensures behind3 == before[|prefix| + |number| + |suffix| + 1..]
  {
    behind1 := before[8..][|prefix| - 7..];
    behind2 := behind1[|number|..];
    behind3 := behind2[|suffix|..];
  }

  /** The body that the two generators share but for their prefix. Clearing `sizeof` a pointer's
      worth of bytes has no lasting effect, since the prefix is longer. */
  method Generate(buffer: array<char>, prefix: string, id: u32, suffix: string)
    requires |prefix| >= 8 && NUL !in prefix && NUL !in suffix
    requires |Key(prefix, id, suffix)| < buffer.Length
    modifies buffer
    ensures CString(buffer[..]) == Key(prefix, id, suffix)
    ensures buffer[|Key(prefix, id, suffix)| + 1..] == old(buffer[|Key(prefix, id, suffix)| + 1..])
  {
    hide CString, Key, Decimal;
    ghost var before := buffer[..];
    var number := Decimal(id) + ".";
    KeyParts(prefix, id, suffix);
    Clear(buffer, 8);
    ghost var behind1, behind2, behind3 := Tails(before, buffer[..], prefix, number, suffix);
    StartString(buffer, prefix, behind1);
    Strcat(buffer, number, prefix, behind1);
    Strcat(buffer, suffix, prefix + number, behind2);
    KeyWritten(buffer[..], Key(prefix, id, suffix), behind3);
  }

  lemma KeyParts(prefix: string, id: u32, suffix: string)
    requires NUL !in prefix && NUL !in suffix
    ensures Key(prefix, id, suffix) == prefix + (Decimal(id) + ".") + suffix
    ensures |Key(prefix, id, suffix)| == |prefix| + |Decimal(id) + "."| + |suffix|
    ensures NUL !in prefix + (Decimal(id) + ".") && NUL !in Key(prefix, id, suffix)
  {
  }

  lemma KeyWritten(s: seq<char>, key: string, tail: seq<char>)
    requires s == key + [NUL] + tail && NUL !in key
    ensures CString(s) == key && s[|key| + 1..] == tail
  {
    CStringIs(s, key);
  }

  method GenerateMembersKey(buffer: array<char>, id: u32, suffix: string)
    requires NUL !in suffix && |MembersKey(id, suffix)| < buffer.Length
    modifies buffer
    ensures CString(buffer[..]) == MembersKey(id, suffix)
    ensures buffer[|MembersKey(id, suffix)| + 1..] == old(buffer[|MembersKey(id, suffix)| + 1..])
  {
    Generate(buffer, MEMBERS_PREFIX, id, suffix);
  }

  method GenerateNodelistKey(buffer: array<char>, id: u32, suffix: string)
    requires NUL !in suffix && |NodelistKey(id, suffix)| < buffer.Length
    modifies buffer
    ensures CString(buffer[..]) == NodelistKey(id, suffix)
    ensures buffer[|NodelistKey(id, suffix)| + 1..] == old(buffer[|NodelistKey(id, suffix)| + 1..])
  {
    Generate(buffer, NODELIST_PREFIX, id, suffix);
  }

  // ---------- round trip

  lemma {:induction false} DigitRunOf(s: string, rest: string)
    requires forall i :: 0 <= i < |s| ==> IsDigit(s[i])
    requires rest == [] || !IsDigit(rest[0])
    ensures DigitRun(s + rest) == |s|
  {
    if s == [] {
      assert s + rest == rest;
    } else {
      assert (s + rest)[1..] == s[1..] + rest;
      DigitRunOf(s[1..], rest);
    }
  }

  /** The white space that C skips: blank, tab, newline, vertical tab, form feed, carriage return. */
  predicate Blank(s: string) {
    forall i :: 0 <= i < |s| ==> s[i] in " \t\n\r" || s[i] as int == 11 || s[i] as int == 12
  }

  /** What `%s` reads whole. */
  predicate IsWord(s: string) {
    && s != []
    && forall i :: 0 <= i < |s| ==> s[i] !in " \t\n\r" && s[i] as int != 11 && s[i] as int != 12
  }

  lemma {:induction false} WordRunOf(s: string, rest: string)
    requires forall i :: 0 <= i < |s| ==> !IsSpace(s[i])
    requires rest == [] || IsSpace(rest[0])
    ensures WordRun(s + rest) == |s|
  {
    if s == [] {
      assert s + rest == rest;
    } else {
      assert (s + rest)[1..] == s[1..] + rest;
      WordRunOf(s[1..], rest);
    }
  }

  /** A word is read behind any white space, up to the next white space. */
  lemma ScanWordBetween(spaces: string, s: string, rest: string)
    requires Blank(spaces) && IsWord(s) && (rest == [] || Blank(rest[..1]))
    ensures ScanWord(spaces + (s + rest)) == Scanned(s, rest)
  {
    hide SkipSpaces, WordRun;
    var t := s + rest;
    assert rest != [] ==> rest[..1][0] == rest[0];
    assert t[0] == s[0];
    SkipsSpaces(spaces, t);
    WordRunOf(s, rest);
    assert t[..|s|] == s && t[|s|..] == rest;
  }

  lemma ScanPrintedWord(s: string)
    requires IsWord(s)
    ensures ScanWord(s) == Scanned(s, [])
  {
    hide IsWord, ScanWord;
    ScanWordBetween("", s, "");
    assert "" + (s + "") == s;
  }

  /** There is no word in white space. */
  lemma ScanNoWord(spaces: string)
    requires Blank(spaces)
    ensures ScanWord(spaces) == NoMatch
  {
    SkipsSpaces(spaces, "");
    assert spaces + "" == spaces;
  }

  lemma {:induction false} SkipsSpaces(spaces: string, s: string)
    requires forall i :: 0 <= i < |spaces| ==> IsSpace(spaces[i])
    requires s == [] || !IsSpace(s[0])
    ensures SkipSpaces(spaces + s) == s
  {
    if spaces == [] {
      assert spaces + s == s;
    } else {
      assert (spaces + s)[1..] == spaces[1..] + s;
      SkipsSpaces(spaces[1..], s);
    }
  }

  /** A number is read behind any white space and with either sign, up to the first character that
      is no digit. */
  lemma ScanSignedInt(spaces: string, sign: string, n: int, rest: string)
    requires n >= 0 && Blank(spaces)
    requires sign == "" || sign == "+" || sign == "-"
    requires rest == [] || !IsDigit(rest[0])
    ensures var value := if sign == "-" then -n else n;
            ScanInt(spaces + (sign + (Decimal(n) + rest))) ==
            if -0x8000_0000 <= value < 0x8000_0000 then Scanned(value, rest) else OutOfRange
  {
    hide Decimal, DigitRun, DecimalValue, SkipSpaces;
    var u := Decimal(n) + rest;
    assert u[0] == Decimal(n)[0];
    SignBeforeDigit(sign, u);
    SkipsSpaces(spaces, sign + u);
    DigitRunOf(Decimal(n), rest);
    assert u[..|Decimal(n)|] == Decimal(n) && u[|Decimal(n)|..] == rest;
    DecimalRoundTrip(n);
  }

  /** Without a digit behind white space and a sign there is no number. */
  lemma ScanNoInt(spaces: string, sign: string, rest: string)
    requires Blank(spaces)
    requires sign == "+" || sign == "-" || (sign == "" && (rest == [] || (IsWord(rest[..1]) && rest[0] !in "+-")))
    requires rest == [] || !('0' <= rest[0] <= '9')
    ensures ScanInt(spaces + (sign + rest)) == NoMatch
  {
    hide SkipSpaces;
    var t := sign + rest;
    assert sign == "" ==> t == rest;
    assert sign != "" ==> t[1..] == rest;
    assert rest != [] ==> rest[..1][0] == rest[0];
    SkipsSpaces(spaces, t);
  }

  lemma SignBeforeDigit(sign: string, u: string)
    requires sign == "" || sign == "+" || sign == "-"
    requires u != [] && IsDigit(u[0])
    ensures var t := sign + u;
            && t != [] && !IsSpace(t[0]) && (t[0] == '-' <==> sign == "-")
            && (if t[0] == '-' || t[0] == '+' then t[1..] else t) == u
  {
    assert sign == "" ==> sign + u == u;
    assert sign != "" ==> (sign + u)[1..] == u;
  }

  lemma ScanPrintedInt(id: nat, rest: string)
    requires rest == [] || !IsDigit(rest[0])
    ensures ScanInt(Decimal(id) + rest) == if id < INT_LIMIT then Scanned(id, rest) else OutOfRange
  {
    hide Decimal, ScanInt;
    ScanSignedInt("", "", id, rest);
    assert "" + ("" + (Decimal(id) + rest)) == Decimal(id) + rest;
  }

  /** A printed members key is read back as it was printed exactly when the id fits an `int`. */
  lemma MembersKeyRoundTrip(id: u32, suffix: string)
    requires IsWord(suffix)
    ensures ScanIdAndSuffix(MembersKey(id, suffix)) == Scanned((id, suffix), []) <==> id < INT_LIMIT
    ensures ScanId(MembersKey(id, suffix)) == Scanned(id, "." + suffix) <==> id < INT_LIMIT
  {
    hide Decimal, ScanInt, ScanWord, IsWord;
    var key, rest := MembersKey(id, suffix), "." + suffix;
    assert key == MEMBERS_PREFIX + (Decimal(id) + rest);
    assert key[|MEMBERS_PREFIX|..] == Decimal(id) + rest;
    ScanPrintedInt(id, rest);
    assert rest[1..] == suffix;
    ScanPrintedWord(suffix);
  }

  /** Behind the prefix and a number, without a dot and a word after it, only the id is read; without
      the prefix nothing is. */
  lemma ScanWithoutSuffix(key: string, id: u32, rest: string)
    requires key == "runtime.totem.pg.mrp.srp.members." + (Decimal(id) + rest) && id < 0x8000_0000
    requires rest == [] || (!('0' <= rest[0] <= '9') && (rest[0] == '.' ==> Blank(rest[1..])))
    ensures ScanId(key) == Scanned(id, rest) && ScanIdAndSuffix(key) == NoMatch
  {
    hide Decimal, ScanInt, ScanWord, Blank;
    assert key[|MEMBERS_PREFIX|..] == Decimal(id) + rest;
    ScanPrintedInt(id, rest);
    if rest != [] && rest[0] == '.' {
      ScanNoWord(rest[1..]);
    }
  }

  lemma FirstDot(a: string, s: string, b: string, t: string)
    requires (forall i :: 0 <= i < |a| ==> IsDigit(a[i])) && (forall i :: 0 <= i < |b| ==> IsDigit(b[i]))
    requires a + "." + s == b + "." + t
    ensures a == b && s == t
  {
    var x := a + "." + s;
    assert x == a + ("." + s) && x == b + ("." + t);
    DigitRunOf(a, "." + s);
    DigitRunOf(b, "." + t);
    assert a == x[..|a|] && b == x[..|b|];
    assert s == x[|a| + 1..] && t == x[|b| + 1..];
  }

  /** Keys with the same prefix are the same only for the same id and suffix, whatever the suffix. */
  lemma KeyInjective(prefix: string, id: u32, suffix: string, id': u32, suffix': string)
    requires Key(prefix, id, suffix) == Key(prefix, id', suffix')
    ensures id == id' && suffix == suffix'
  {
    var k, k' := Key(prefix, id, suffix), Key(prefix, id', suffix');
    assert k[|prefix|..] == Decimal(id) + "." + suffix;
    assert k'[|prefix|..] == Decimal(id') + "." + suffix';
    FirstDot(Decimal(id), suffix, Decimal(id'), suffix');
    DecimalRoundTrip(id);
    DecimalRoundTrip(id');
  }

  /** `key` is the prefix, a number without leading zeros that reads as `id`, a dot and the suffix. */
  predicate Spells(key: string, prefix: string, id: nat, suffix: string) {
    && prefix <= key
    && var rest := key[|prefix|..];
       var n := DigitRun(rest);
       && n > 0 && DecimalValue(rest[..n]) == id && (rest[0] == '0' ==> n == 1)
       && rest[n..] == "." + suffix
  }

  lemma KeySpells(key: string, prefix: string, id: u32, suffix: string)
    ensures key == Key(prefix, id, suffix) <==> Spells(key, prefix, id, suffix)
  {
    hide Decimal, DigitRun, DecimalValue;
    if key == Key(prefix, id, suffix) {
      var rest := key[|prefix|..];
      assert rest == Decimal(id) + ("." + suffix);
      DigitRunOf(Decimal(id), "." + suffix);
      DecimalRoundTrip(id);
      NumberAlone(id);
      assert rest[..|Decimal(id)|] == Decimal(id) && rest[0] == Decimal(id)[0];
    }
    if Spells(key, prefix, id, suffix) {
      var rest := key[|prefix|..];
      var n := DigitRun(rest);
      DecimalUnique(rest[..n]);
      assert key == prefix + rest && rest == rest[..n] + rest[n..];
    }
  }

  lemma NumberAlone(n: nat)
    ensures Decimal(n)[0] == '0' ==> |Decimal(n)| == 1
  {
    NoLeadingZero(n);
  }

  /** The node list key of an id and a suffix is the one string that spells them. */
  lemma NodelistKeySpells(key: string, id: u32, suffix: string)
    ensures key == NodelistKey(id, suffix) <==> Spells(key, "nodelist.node.", id, suffix)
  {
    hide Spells, Key;
    KeySpells(key, "nodelist.node.", id, suffix);
  }

  /** The members key of an id and a suffix is the one string that spells them. */
  lemma MembersKeySpells(key: string, id: u32, suffix: string)
    ensures key == MembersKey(id, suffix) <==> Spells(key, "runtime.totem.pg.mrp.srp.members.", id, suffix)
  {
    hide Spells, Key;
    KeySpells(key, "runtime.totem.pg.mrp.srp.members.", id, suffix);
  }

  /** Each generator gives distinct keys for distinct ids or suffixes, and no key of the other. */
  lemma GeneratorsInjective(id: u32, suffix: string, id': u32, suffix': string)
    ensures MembersKey(id, suffix) == MembersKey(id', suffix') ==> id == id' && suffix == suffix'
    ensures NodelistKey(id, suffix) == NodelistKey(id', suffix') ==> id == id' && suffix == suffix'
    ensures MembersKey(id, suffix) != NodelistKey(id', suffix')
  {
    hide Key, Spells;
    KindsDisjoint(id, suffix, id', suffix');
    var m, n := MembersKey(id, suffix), NodelistKey(id, suffix);
    MembersKeySpells(m, id, suffix);
    MembersKeySpells(m, id', suffix');
    NodelistKeySpells(n, id, suffix);
    NodelistKeySpells(n, id', suffix');
    SpelledOnce(m, "runtime.totem.pg.mrp.srp.members.", id, suffix, id', suffix');
    SpelledOnce(n, "nodelist.node.", id, suffix, id', suffix');
  }

  lemma SpelledOnce(key: string, prefix: string, id: u32, suffix: string, id': u32, suffix': string)
    ensures Spells(key, prefix, id, suffix) && Spells(key, prefix, id', suffix') ==> id == id' && suffix == suffix'
  {
    if Spells(key, prefix, id, suffix) && Spells(key, prefix, id', suffix') {
      assert ("." + suffix)[1..] == ("." + suffix')[1..];
    }
  }

  /** The two kinds of key never coincide. */
  lemma KindsDisjoint(id: u32, suffix: string, id': u32, suffix': string)
    ensures MembersKey(id, suffix) != NodelistKey(id', suffix')
  {
    assert MembersKey(id, suffix)[0] == 'r' && NodelistKey(id', suffix')[0] == 'n';
  }
}
