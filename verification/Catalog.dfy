/** The record of a catalogued track (base/src/musiccatalog.cpp): a letter, the number of fields, the
    length of each field in decimal, and the fields one after the other. */
module CatalogRecords {
  import opened Options

  datatype StorageType = Stream | File

  datatype MetaData = MetaData(artist: string, album: string, title: string, comment: string, genre: string,
                               year: nat, track: nat, time: nat, size: nat, playCount: nat, guid: string)

  const NO_META_DATA := MetaData("", "", "", "", "", 0, 0, 0, 0, 0, "")

  // ------------------------------------------------------------------ decimal numbers

  function Digit(d: nat): char
    requires d < 10
  {
    "0123456789"[d]
  }

  predicate IsDigit(c: char) {
    '0' <= c <= '9'
  }

  predicate IsSpace(c: char) {
    c == ' ' || 9 as char <= c <= 13 as char
  }

  /** %ld of a number that is not negative. */
  function Decimal(n: nat): (s: string)
    ensures |s| > 1 ==> s[0] != '0'
    ensures |s| > 0 && forall i :: 0 <= i < |s| ==> IsDigit(s[i])
  {
    if n < 10 then [Digit(n)] else Decimal(n / 10) + [Digit(n % 10)]
  }

  function DigitValue(c: char): nat
    requires IsDigit(c)
  {
    c as int - '0' as int
  }

  /** The number the digits stand for. */
  function Value(s: string): nat
    requires forall i :: 0 <= i < |s| ==> IsDigit(s[i])
  {
    if s == [] then 0 else 10 * Value(s[..|s| - 1]) + DigitValue(s[|s| - 1])
  }

  lemma {:induction false} ValueOfDecimal(n: nat)
    ensures Value(Decimal(n)) == n
  {
    if n >= 10 {
      var front := Decimal(n / 10);
      assert (front + [Digit(n % 10)])[..|front|] == front;
      ValueOfDecimal(n / 10);
    } else {
      assert Decimal(n)[..0] == [];
    }
  }

  // ------------------------------------------------------------------ sscanf and strings

  function SkipSpaces(s: string, i: nat): (r: nat)
    requires i <= |s|
    ensures i <= r <= |s| && (r < |s| ==> !IsSpace(s[r])) && forall k :: i <= k < r ==> IsSpace(s[k])
    decreases |s| - i
  {
    if i < |s| && IsSpace(s[i]) then SkipSpaces(s, i + 1) else i
  }

  function SkipDigits(s: string, i: nat): (r: nat)
    requires i <= |s|
    ensures i <= r <= |s| && (r < |s| ==> !IsDigit(s[r])) && forall k :: i <= k < r ==> IsDigit(s[k])
    decreases |s| - i
  {
    if i < |s| && IsDigit(s[i]) then SkipDigits(s, i + 1) else i
  }

  datatype Scanned = Scanned(value: nat, next: nat)

  const WIDTH: nat := 0x1_0000_0000   // numbers are kept as uint32

  predicate IsSign(c: char) {
    c == '+' || c == '-'
  }

  /** %lu from i on: blanks, perhaps a sign, then at least one digit; a minus negates as for uint32. */
  function ScanNumber(s: string, i: nat): (r: Option<Scanned>)
    requires i <= |s|
    ensures r != None ==> r.value.next <= |s|
  {
    var first := SkipSpaces(s, i);
    var start := if first < |s| && IsSign(s[first]) then first + 1 else first;
    var end := SkipDigits(s, start);
    if start == end then None
    else
      var value := Value(s[start..end]);
      Some(Scanned(if start > first && s[first] == '-' then (WIDTH - value % WIDTH) % WIDTH else value, end))
  }

  /** atoi, converted to uint32; 0 where there is no number. */
  function Atoi(s: string): nat {
    match ScanNumber(s, 0)
    case Some(n) => n.value
    case None => 0
  }

  /** string::substr. */
  function Substr(s: string, i: nat, n: nat): string
    requires i <= |s|
  {
    if i + n <= |s| then s[i..i + n] else s[i..]
  }

  /** What c_str leaves of a string: the part in front of the first NUL. */
  function CString(s: string): string {
    if s == [] || s[0] == '\0' then [] else [s[0]] + CString(s[1..])
  }

  ghost predicate NulFree(s: string) {
    forall i :: 0 <= i < |s| ==> s[i] != '\0'
  }

  lemma {:induction false} CStringFacts(s: string)
    ensures NulFree(CString(s))
    ensures NulFree(s) ==> CString(s) == s
  {
    if s != [] {
      CStringFacts(s[1..]);
      assert s == [s[0]] + s[1..];
    }
  }

  /** Reading a number that is followed by something else gives the number that was printed. */
  lemma ScanOfDecimal(s: string, i: nat, at: nat, n: nat)
    requires i <= at && at + |Decimal(n)| <= |s| && s[at..at + |Decimal(n)|] == Decimal(n)
    requires forall k :: i <= k < at ==> IsSpace(s[k])
    requires at + |Decimal(n)| < |s| ==> !IsDigit(s[at + |Decimal(n)|])
    ensures ScanNumber(s, i) == Some(Scanned(n, at + |Decimal(n)|))
  {
    var d := Decimal(n);
    assert s[at..at + |d|] == d;
    forall k | at <= k < at + |d| ensures IsDigit(s[k]) {
      var j := k - at;
      assert s[at..at + |d|][j] == d[j];
    }
    SkipSpacesTo(s, i, at);
    assert IsDigit(s[at]) && !IsSign(s[at]);
    SkipDigitsTo(s, at, at + |d|);
    ValueOfDecimal(n);
  }

  lemma {:induction false} SkipSpacesTo(s: string, i: nat, at: nat)
    requires i <= at <= |s| && (forall k :: i <= k < at ==> IsSpace(s[k])) && (at < |s| ==> !IsSpace(s[at]))
    ensures SkipSpaces(s, i) == at
    decreases at - i
  {
    if i < at {
      SkipSpacesTo(s, i + 1, at);
    }
  }

  lemma {:induction false} SkipDigitsTo(s: string, i: nat, at: nat)
    requires i <= at <= |s| && (forall k :: i <= k < at ==> IsDigit(s[k])) && (at < |s| ==> !IsDigit(s[at]))
    ensures SkipDigits(s, i) == at
    decreases at - i
  {
    if i < at {
      SkipDigitsTo(s, i + 1, at);
    }
  }

  // ------------------------------------------------------------------ the record

  function Fields(m: MetaData): (r: seq<string>)
    ensures |r| == 11
  {
    [m.artist, m.album, m.title, m.comment, m.genre,
     Decimal(m.year), Decimal(m.track), Decimal(m.time), Decimal(m.size), Decimal(m.playCount), m.guid]
  }

  function Lengths(fields: seq<string>): string {
    if fields == [] then "" else Decimal(|fields[0]|) + " " + Lengths(fields[1..])
  }

  function Joined(fields: seq<string>): string {
    if fields == [] then "" else fields[0] + Joined(fields[1..])
  }

  function Letter(kind: StorageType): string {
    if kind == Stream then "S" else "M"
  }

  function Record(kind: StorageType, m: MetaData): string {
    Letter(kind) + " " + "11" + " " + Lengths(Fields(m)) + Joined(Fields(m))
  }

  /** The number of characters of x, and a blank. */
  function Measured(x: string): string {
    Decimal(|x|) + " "
  }

  /** The record, written out: the letter, 11, eleven lengths, eleven fields, in this order. */
  lemma RecordLayout(kind: StorageType, m: MetaData)
    ensures Record(kind, m)
      == (if kind == Stream then "S" else "M") + " 11 "
         + (Measured(m.artist) + (Measured(m.album) + (Measured(m.title) + (Measured(m.comment) + (Measured(m.genre)
            + (Measured(Decimal(m.year)) + (Measured(Decimal(m.track)) + (Measured(Decimal(m.time))
            + (Measured(Decimal(m.size)) + (Measured(Decimal(m.playCount)) + Measured(m.guid)))))))))))
         + (m.artist + (m.album + (m.title + (m.comment + (m.genre
            + (Decimal(m.year) + (Decimal(m.track) + (Decimal(m.time)
            + (Decimal(m.size) + (Decimal(m.playCount) + m.guid))))))))))
  {
    hide Decimal, Measured, Lengths, Joined;
    var numbers := [Decimal(m.year), Decimal(m.track), Decimal(m.time), Decimal(m.size), Decimal(m.playCount), m.guid];
    SixFields(Decimal(m.year), Decimal(m.track), Decimal(m.time), Decimal(m.size), Decimal(m.playCount), m.guid);
    FieldFirst(m.genre, numbers);
    FieldFirst(m.comment, [m.genre] + numbers);
    FieldFirst(m.title, [m.comment] + ([m.genre] + numbers));
    FieldFirst(m.album, [m.title] + ([m.comment] + ([m.genre] + numbers)));
    FieldFirst(m.artist, [m.album] + ([m.title] + ([m.comment] + ([m.genre] + numbers))));
    assert Fields(m) == [m.artist] + ([m.album] + ([m.title] + ([m.comment] + ([m.genre] + numbers))));
  }

  lemma FieldFirst(x: string, rest: seq<string>)
    ensures Lengths([x] + rest) == Measured(x) + Lengths(rest) && Joined([x] + rest) == x + Joined(rest)
  {
    assert ([x] + rest)[1..] == rest;
  }

  lemma SixFields(a: string, b: string, c: string, d: string, e: string, f: string)
    ensures Lengths([a, b, c, d, e, f])
      == Measured(a) + (Measured(b) + (Measured(c) + (Measured(d) + (Measured(e) + Measured(f)))))
    ensures Joined([a, b, c, d, e, f]) == a + (b + (c + (d + (e + f))))
  {
    hide Decimal, Measured, Lengths, Joined;
    FieldFirst(f, []);
    assert [f] + [] == [f];
    NothingMeasured();
    FieldFirst(e, [f]);
    FieldFirst(d, [e] + [f]);
    FieldFirst(c, [d] + ([e] + [f]));
    FieldFirst(b, [c] + ([d] + ([e] + [f])));
    FieldFirst(a, [b] + ([c] + ([d] + ([e] + [f]))));
    assert [a, b, c, d, e, f] == [a] + ([b] + ([c] + ([d] + ([e] + [f]))));
  }

  lemma NothingMeasured()
    ensures Lengths([]) == "" && Joined([]) == ""
  {
  }

  lemma {:induction false} LengthsAppend(fields: seq<string>, f: string)
    ensures Lengths(fields + [f]) == Lengths(fields) + Decimal(|f|) + " "
  {
    hide Decimal;
    var all := fields + [f];
    if fields == [] {
      assert all[1..] == [];
    } else {
      LengthsAppend(fields[1..], f);
      assert all[1..] == fields[1..] + [f];
    }
  }

  lemma {:induction false} JoinedAppend(fields: seq<string>, f: string)
    ensures Joined(fields + [f]) == Joined(fields) + f
  {
    var all := fields + [f];
    if fields == [] {
      assert all[1..] == [];
    } else {
      JoinedAppend(fields[1..], f);
      assert all[1..] == fields[1..] + [f];
    }
  }

  lemma {:induction false} JoinedSplit(fields: seq<string>, j: nat)
    requires j <= |fields|
    ensures Joined(fields) == Joined(fields[..j]) + Joined(fields[j..])
  {
    if j == 0 {
      assert fields[0..] == fields && fields[..0] == [];
    } else {
      JoinedSplit(fields[1..], j - 1);
      assert fields[..j][1..] == fields[1..][..j - 1];
      assert fields[1..][j - 1..] == fields[j..];
    }
  }

  // ------------------------------------------------------------------ parsing

  /** The lengths read, and where the fields begin. */
  datatype Layout = Layout(lengths: seq<nat>, data: nat)

  /** The loop over the lengths from the i-th on.  After the
      last length exactly one character is passed over, since the fields may begin with blanks. */
  function ScanLengths(value: string, offset: nat, i: nat, n: nat): (r: Option<Layout>)
    requires offset <= |value| && i <= n
    ensures r != None ==> r.value.data <= |value| && |r.value.lengths| == n - i
    decreases n - i
  {
    if i == n then Some(Layout([], offset)) else
      match ScanNumber(value, offset)
      case None => None
      case Some(length) =>
        var offset' := if i == n - 1 then offset + |Decimal(length.value)| + 1 else SkipSpaces(value, length.next);
        if offset' > |value| then None else
          match ScanLengths(value, offset', i + 1, n)
          case None => None
          case Some(rest) => Some(Layout([length.value] + rest.lengths, rest.data))
  }

  function WithField(m: MetaData, j: nat, s: string): MetaData {
    match j
    case 0 => m.(artist := s)
    case 1 => m.(album := s)
    case 2 => m.(title := s)
    case 3 => m.(comment := s)
    case 4 => m.(genre := s)
    case 5 => m.(year := Atoi(s))
    case 6 => m.(track := Atoi(s))
    case 7 => m.(time := Atoi(s))
    case 8 => m.(size := Atoi(s))
    case 9 => m.(playCount := Atoi(s))
    case 10 => m.(guid := s)
    case _ => m
  }

  /** The loop over the fields from the j-th on; none when substr would throw. */
  function WithFields(m: MetaData, data: string, count: nat, lengths: seq<nat>, j: nat): Option<MetaData>
    requires j <= |lengths|
    decreases |lengths| - j
  {
    if j == |lengths| then Some(m)
    else if lengths[j] == 0 then WithFields(m, data, count, lengths, j + 1)
    else if count > |data| then None
    else WithFields(WithField(m, j, Substr(data, count, lengths[j])), data, count + lengths[j], lengths, j + 1)
  }

  /** ReadMetaDataFromDatabase on the stored characters. */
  function Parse(stored: string): Option<MetaData> {
    if |stored| < 2 then None else
      var value := stored[2..];
      match ScanNumber(value, 0)
      case None => None
      case Some(n) =>
        match ScanLengths(value, n.next, 0, n.value)
        case None => None
        case Some(scan) => WithFields(NO_META_DATA, value[scan.data..], 0, scan.lengths, 0)
  }

  // ------------------------------------------------------------------ round trip

  function Sizes(fields: seq<string>): (r: seq<nat>)
    ensures |r| == |fields| && forall i :: 0 <= i < |r| ==> r[i] == |fields[i]|
  {
    seq(|fields|, i requires 0 <= i < |fields| => |fields[i]|)
  }

  ghost function Prepended(lengths: seq<nat>, scan: Option<Layout>): Option<Layout> {
    if scan == None then None else Some(Layout(lengths + scan.value.lengths, scan.value.data))
  }

  lemma PrependedTwice(a: seq<nat>, b: seq<nat>, scan: Option<Layout>)
    ensures Prepended([], scan) == scan
    ensures Prepended(a, Prepended(b, scan)) == Prepended(a + b, scan)
  {
    if scan != None {
      assert [] + scan.value.lengths == scan.value.lengths;
      assert a + (b + scan.value.lengths) == (a + b) + scan.value.lengths;
    }
  }

  /** One turn of the loop over the lengths. */
  lemma ScanOne(value: string, offset: nat, i: nat, n: nat, length: Scanned, next: nat)
    requires offset <= |value| && i < n && next <= |value| && length.next <= |value|
    requires ScanNumber(value, offset) == Some(length)
    requires next == if i == n - 1 then offset + |Decimal(length.value)| + 1 else SkipSpaces(value, length.next)
    ensures ScanLengths(value, offset, i, n) == Prepended([length.value], ScanLengths(value, next, i + 1, n))
  {
  }

  lemma Suffix(value: string, offset: nat, a: string, b: string)
    requires offset <= |value| && value[offset..] == a + b
    ensures offset + |a| <= |value| && value[offset..offset + |a|] == a && value[offset + |a|..] == b
  {
    assert value[offset..offset + |a|] == value[offset..][..|a|];
    assert value[offset + |a|..] == value[offset..][|a|..];
  }

  /** The lengths printed are the lengths read, whatever the fields begin with. */
  lemma {:induction false} LengthsAreRead(value: string, offset: nat, blank: string, fields: seq<string>, data: string,
                                          i: nat, n: nat)
    requires offset <= |value| && i < n && |fields| == n - i
    requires blank == "" || (blank == " " && i < n - 1)
    requires value[offset..] == blank + (Lengths(fields) + data)
    ensures ScanLengths(value, offset, i, n) == Some(Layout(Sizes(fields), |value| - |data|))
    decreases n - i
  {
    hide ScanNumber, SkipSpaces, Decimal, IsDigit, IsSpace, ScanLengths, Lengths;
    var size := |fields[0]|;
    var next := offset + |blank| + |Decimal(size)| + 1;
    FirstLengthIsRead(value, offset, blank, fields, data);
    ScanOne(value, offset, i, n, Scanned(size, next - 1), next);
    var rest := fields[1..];
    SizesCons(fields);
    if i == n - 1 {
      NoLengthsLeft(value, next, n, data, rest);
    } else {
      assert value[next..] == "" + (Lengths(rest) + data);
      LengthsAreRead(value, next, "", rest, data, i + 1, n);
    }
  }

  lemma SizesCons(fields: seq<string>)
    requires fields != []
    ensures Sizes(fields) == [|fields[0]|] + Sizes(fields[1..])
  {
  }

  lemma NoLengthsLeft(value: string, next: nat, n: nat, data: string, rest: seq<string>)
    requires next <= |value| && rest == [] && value[next..] == Lengths(rest) + data
    ensures ScanLengths(value, next, n, n) == Some(Layout(Sizes(rest), |value| - |data|))
  {
    assert Lengths(rest) + data == data;
    assert |value[next..]| == |value| - next;
  }

  lemma FirstLengthIsRead(value: string, offset: nat, blank: string, fields: seq<string>, data: string)
    requires offset <= |value| && fields != [] && (blank == "" || blank == " ")
    requires value[offset..] == blank + (Lengths(fields) + data)
    ensures
      var size := |fields[0]|;
      var next := offset + |blank| + |Decimal(size)| + 1;
      && next <= |value| && ScanNumber(value, offset) == Some(Scanned(size, next - 1))
      && value[next..] == Lengths(fields[1..]) + data
      && (|fields| > 1 ==> SkipSpaces(value, next - 1) == next)
  {
    hide ScanNumber, Decimal, Lengths, SkipSpaces, IsDigit;
    var size := |fields[0]|;
    var tail := Lengths(fields[1..]) + data;
    LengthsFirst(fields, data);
    PrintedNumberIsRead(value, offset, blank, size, tail);
    if |fields| > 1 {
      LengthsStartWithDigit(fields[1..], data);
      OneBlank(value, offset + |blank| + |Decimal(size)|, tail);
    }
  }

  lemma LengthsFirst(fields: seq<string>, data: string)
    requires fields != []
    ensures Lengths(fields) + data == Decimal(|fields[0]|) + (" " + (Lengths(fields[1..]) + data))
  {
  }

  lemma PrintedNumberIsRead(value: string, offset: nat, blank: string, n: nat, tail: string)
    requires offset <= |value| && (blank == "" || blank == " ")
    requires value[offset..] == blank + (Decimal(n) + (" " + tail))
    ensures
      var next := offset + |blank| + |Decimal(n)| + 1;
      && next <= |value| && ScanNumber(value, offset) == Some(Scanned(n, next - 1))
      && value[next - 1] == ' ' && value[next..] == tail
  {
    hide ScanNumber, Decimal, IsDigit;
    var d := Decimal(n);
    var at := offset + |blank|;
    Suffix(value, offset, blank, d + (" " + tail));
    assert blank == " " ==> value[offset] == value[offset..at][0];
    DecimalIsNext(value, offset, at, n, tail);
    Suffix(value, at, d, " " + tail);
    Suffix(value, at + |d|, " ", tail);
  }

  lemma OneBlank(value: string, i: nat, tail: string)
    requires i < |value| && value[i] == ' ' && value[i + 1..] == tail && tail != "" && IsDigit(tail[0])
    ensures SkipSpaces(value, i) == i + 1
  {
    assert value[i + 1] == tail[0];
    assert SkipSpaces(value, i + 1) == i + 1;
  }

  lemma LengthsStartWithDigit(fields: seq<string>, data: string)
    requires fields != []
    ensures |Lengths(fields) + data| > 0 && IsDigit((Lengths(fields) + data)[0])
  {
    assert (Lengths(fields) + data)[0] == Decimal(|fields[0]|)[0];
  }

  lemma DecimalIsNext(value: string, offset: nat, at: nat, n: nat, tail: string)
    requires offset <= at <= |value| && value[at..] == Decimal(n) + (" " + tail)
    requires forall k :: offset <= k < at ==> IsSpace(value[k])
    ensures ScanNumber(value, offset) == Some(Scanned(n, at + |Decimal(n)|))
    ensures at + |Decimal(n)| < |value| && value[at + |Decimal(n)|] == ' '
  {
    var d := Decimal(n);
    assert value[at..][|d|] == ' ';
    assert value[at..at + |d|] == d by {
      assert value[at..at + |d|] == value[at..][..|d|];
    }
    ScanOfDecimal(value, offset, at, n);
  }

  /** The fields before the j-th as in m, the others as they are at first. */
  ghost predicate ReadUpTo(m: MetaData, r: MetaData, j: nat) {
    && r.artist == (if j > 0 then m.artist else "") && r.album == (if j > 1 then m.album else "")
    && r.title == (if j > 2 then m.title else "") && r.comment == (if j > 3 then m.comment else "")
    && r.genre == (if j > 4 then m.genre else "") && r.year == (if j > 5 then m.year else 0)
    && r.track == (if j > 6 then m.track else 0) && r.time == (if j > 7 then m.time else 0)
    && r.size == (if j > 8 then m.size else 0) && r.playCount == (if j > 9 then m.playCount else 0)
    && r.guid == (if j > 10 then m.guid else "")
  }

  lemma AtoiOfDecimal(n: nat)
    ensures Atoi(Decimal(n)) == n
  {
    ScanOfDecimal(Decimal(n), 0, 0, n);
  }

  lemma FieldIsRead(m: MetaData, r: MetaData, j: nat)
    requires j < 11 && ReadUpTo(m, r, j)
    ensures ReadUpTo(m, if |Fields(m)[j]| == 0 then r else WithField(r, j, Fields(m)[j]), j + 1)
  {
    hide Decimal, Atoi, IsDigit;
    AtoiOfDecimal(m.year);
    AtoiOfDecimal(m.track);
    AtoiOfDecimal(m.time);
    AtoiOfDecimal(m.size);
    AtoiOfDecimal(m.playCount);
  }

  lemma ReadAll(m: MetaData, r: MetaData)
    requires ReadUpTo(m, r, 11)
    ensures r == m
  {
  }

  lemma JoinedFrom(fields: seq<string>, j: nat)
    requires j < |fields|
    ensures Joined(fields[j..]) == fields[j] + Joined(fields[j + 1..])
  {
    assert fields[j..][1..] == fields[j + 1..];
  }

  lemma {:induction false} FieldsAreRead(m: MetaData, r: MetaData, j: nat)
    requires j <= 11 && ReadUpTo(m, r, j)
    ensures WithFields(r, Joined(Fields(m)), |Joined(Fields(m)[..j])|, Sizes(Fields(m)), j) == Some(m)
    decreases 11 - j
  {
    hide WithField, ReadUpTo, Fields, Joined;
    var fields := Fields(m);
    var data := Joined(fields);
    var count := |Joined(fields[..j])|;
    if j == 11 {
      ReadAll(m, r);
    } else {
      var f := fields[j];
      JoinedSplit(fields, j);
      JoinedFrom(fields, j);
      assert fields[..j + 1] == fields[..j] + [f];
      JoinedAppend(fields[..j], f);
      assert Substr(data, count, |f|) == f;
      FieldIsRead(m, r, j);
      FieldsAreRead(m, if |f| == 0 then r else WithField(r, j, f), j + 1);
    }
  }

  /** What was printed is read back, all eleven fields, whatever they contain, as long as no NUL cuts
      the record short. */
  lemma ParseOfRecord(kind: StorageType, m: MetaData)
    ensures Parse(Record(kind, m)) == Some(m)
  {
    hide ScanNumber, ScanLengths, WithFields, Decimal, Lengths, Joined, Fields, Sizes;
    var fields := Fields(m);
    var data := Joined(fields);
    var stored := Record(kind, m);
    var value := stored[2..];
    var rest := Lengths(fields) + data;
    DecimalEleven();
    assert value == Decimal(11) + (" " + rest);
    assert value[0..] == value;
    DecimalIsNext(value, 0, 0, 11, rest);
    assert value[2..] == " " + rest;
    LengthsAreRead(value, 2, " ", fields, data, 0, 11);
    assert value[|value| - |data|..] == data;
    NothingJoined(fields);
    FieldsAreRead(m, NO_META_DATA, 0);
  }

  lemma NothingJoined(fields: seq<string>)
    ensures Joined(fields[..0]) == "" && Lengths(fields[..0]) == ""
  {
  }

  lemma DecimalEleven()
    ensures Decimal(11) == "11"
  {
    assert Decimal(1) == "1";
  }

  ghost predicate NoNuls(m: MetaData) {
    NulFree(m.artist) && NulFree(m.album) && NulFree(m.title) && NulFree(m.comment) && NulFree(m.genre) && NulFree(m.guid)
  }

  /** Fields cut from characters without a NUL have none. */
  lemma {:induction false} ReadFieldsHaveNoNul(m: MetaData, data: string, count: nat, lengths: seq<nat>, j: nat)
    requires j <= |lengths| && NoNuls(m) && NulFree(data)
    ensures var r := WithFields(m, data, count, lengths, j); r != None ==> NoNuls(r.value)
    decreases |lengths| - j
  {
    if j < |lengths| {
      if lengths[j] == 0 {
        ReadFieldsHaveNoNul(m, data, count, lengths, j + 1);
      } else if count <= |data| {
        var s := Substr(data, count, lengths[j]);
        assert NulFree(s);
        ReadFieldsHaveNoNul(WithField(m, j, s), data, count + lengths[j], lengths, j + 1);
      }
    }
  }

  lemma {:induction false} JoinedHasNoNul(fields: seq<string>)
    requires forall i :: 0 <= i < |fields| ==> NulFree(fields[i])
    ensures NulFree(Joined(fields)) && NulFree(Lengths(fields))
  {
    if fields != [] {
      JoinedHasNoNul(fields[1..]);
      assert NulFree(Decimal(|fields[0]|));
    }
  }

  /** A record stored as a C string reads back as what was printed exactly when no field has a NUL. */
  lemma StoredRoundTrip(kind: StorageType, m: MetaData)
    ensures Parse(CString(Record(kind, m))) == Some(m) <==> NoNuls(m)
  {
    var stored := Record(kind, m);
    CStringFacts(stored);
    if NoNuls(m) {
      JoinedHasNoNul(Fields(m));
      assert NulFree(stored);
      ParseOfRecord(kind, m);
    } else {
      var cut := CString(stored);
      if Parse(cut) != None {
        var value := cut[2..];
        var n := ScanNumber(value, 0).value;
        var scan := ScanLengths(value, n.next, 0, n.value).value;
        ReadFieldsHaveNoNul(NO_META_DATA, value[scan.data..], 0, scan.lengths, 0);
      }
    }
  }

  // ------------------------------------------------------------------ what the letter is read as

  datatype EntryKind = Song | PlaylistFile | Broadcast | OtherKind

  /** How Add and Remove tell what is stored for a URL. */
  function KindOf(stored: string): EntryKind {
    if stored == "" then OtherKind
    else if stored[0] == 'M' then Song
    else if stored[0] == 'P' then PlaylistFile
    else if stored[0] == 'S' then Broadcast
    else OtherKind
  }

  /** What was stored as a stream is read as one, and a file as a song, whatever its fields. */
  lemma KindIsRead(kind: StorageType, m: MetaData)
    ensures KindOf(CString(Record(kind, m))) == if kind == Stream then Broadcast else Song
  {
    var stored := Record(kind, m);
    assert stored[0] == if kind == Stream then 'S' else 'M';
    assert CString(stored)[0] == stored[0];
  }

  // ------------------------------------------------------------------ printer and parser

  /** WriteMetaDataToDatabase up to the store. */
  method WriteMetaData(kind: StorageType, m: MetaData) returns (ost: string)
    ensures ost == Record(kind, m)
    ensures |ost| > 0 && (ost[0] == 'S' <==> kind == Stream) && (ost[0] == 'M' <==> kind == File)
  {
    hide Lengths, Joined, Decimal;
    ghost var fields := Fields(m);
    NothingJoined(fields);
    ost := if kind == Stream then "S" else "M";
    ost := ost + " " + "11" + " ";
    ghost var head := ost;
    ost := AppendLength(ost, head, fields, 0, m.artist);
    ost := AppendLength(ost, head, fields, 1, m.album);
    ost := AppendLength(ost, head, fields, 2, m.title);
    ost := AppendLength(ost, head, fields, 3, m.comment);
    ost := AppendLength(ost, head, fields, 4, m.genre);
    ost := AppendLength(ost, head, fields, 5, Decimal(m.year));
    ost := AppendLength(ost, head, fields, 6, Decimal(m.track));
    ost := AppendLength(ost, head, fields, 7, Decimal(m.time));
    ost := AppendLength(ost, head, fields, 8, Decimal(m.size));
    ost := AppendLength(ost, head, fields, 9, Decimal(m.playCount));
    ost := AppendLength(ost, head, fields, 10, m.guid);
    assert fields[..11] == fields;
    head := ost;
    ost := AppendField(ost, head, fields, 0, m.artist);
    ost := AppendField(ost, head, fields, 1, m.album);
    ost := AppendField(ost, head, fields, 2, m.title);
    ost := AppendField(ost, head, fields, 3, m.comment);
    ost := AppendField(ost, head, fields, 4, m.genre);
    ost := AppendField(ost, head, fields, 5, Decimal(m.year));
    ost := AppendField(ost, head, fields, 6, Decimal(m.track));
    ost := AppendField(ost, head, fields, 7, Decimal(m.time));
    ost := AppendField(ost, head, fields, 8, Decimal(m.size));
    ost := AppendField(ost, head, fields, 9, Decimal(m.playCount));
    ost := AppendField(ost, head, fields, 10, m.guid);
    assert fields[..11] == fields;
  }

  /** sprintf and append of one length, the k-th. */
  method AppendLength(ost: string, ghost head: string, ghost fields: seq<string>, ghost k: nat, f: string)
    returns (r: string)
    requires k < |fields| && f == fields[k] && ost == head + Lengths(fields[..k])
    ensures r == head + Lengths(fields[..k + 1])
  {
    LengthsAppend(fields[..k], f);
    assert fields[..k + 1] == fields[..k] + [f];
    r := ost + (Decimal(|f|) + " ");
  }

  /** append of one field, the k-th. */
  method AppendField(ost: string, ghost head: string, ghost fields: seq<string>, ghost k: nat, f: string)
    returns (r: string)
    requires k < |fields| && f == fields[k] && ost == head + Joined(fields[..k])
    ensures r == head + Joined(fields[..k + 1])
  {
    JoinedAppend(fields[..k], f);
    assert fields[..k + 1] == fields[..k] + [f];
    r := ost + f;
  }

  /** ReadMetaDataFromDatabase after the fetch; none where the routine would read undefined memory or
      throw. */
  method ReadMetaData(stored: string) returns (r: Option<MetaData>)
    ensures r == Parse(stored)
  {
    if |stored| < 2 {
      return None;
    }
    var value := stored[2..];
    var n := ScanNumber(value, 0);
    if n == None {
      return None;
    }
    var scan := ReadLengths(value, n.value.next, n.value.value);
    if scan == None {
      return None;
    }
    r := ReadFields(value[scan.value.data..], scan.value.lengths);
  }

  /** The loop over the lengths. */
  method ReadLengths(value: string, start: nat, numFields: nat) returns (r: Option<Layout>)
    requires start <= |value|
    ensures r == ScanLengths(value, start, 0, numFields)
  {
    hide ScanNumber, SkipSpaces, Decimal;
    var offset: nat := start;
    var fieldLength: seq<nat> := [];
    ghost var whole := ScanLengths(value, offset, 0, numFields);
    PrependedTwice([], [], whole);
    for i := 0 to numFields
      invariant offset <= |value|
      invariant whole == Prepended(fieldLength, ScanLengths(value, offset, i, numFields))
    {
      var length := ScanNumber(value, offset);
      if length == None {
        return None;
      }
      ghost var before := offset;
      if i == numFields - 1 {
        offset := offset + |Decimal(length.value.value)| + 1;
      } else {
        offset := SkipSpaces(value, length.value.next);
      }
      if offset > |value| {
        return None;
      }
      ScanOne(value, before, i, numFields, length.value, offset);
      PrependedTwice(fieldLength, [length.value.value], ScanLengths(value, offset, i + 1, numFields));
      fieldLength := fieldLength + [length.value.value];
    }
    assert fieldLength + [] == fieldLength;
    r := Some(Layout(fieldLength, offset));
  }

  /** The loop over the fields. */
  method ReadFields(data: string, fieldLength: seq<nat>) returns (r: Option<MetaData>)
    ensures r == WithFields(NO_META_DATA, data, 0, fieldLength, 0)
  {
    var count: nat := 0;
    var metadata := NO_META_DATA;
    for j := 0 to |fieldLength|
      invariant WithFields(NO_META_DATA, data, 0, fieldLength, 0) == WithFields(metadata, data, count, fieldLength, j)
    {
      if fieldLength[j] != 0 {
        if count > |data| {
          return None;
        }
        metadata := WithField(metadata, j, Substr(data, count, fieldLength[j]));
        count := count + fieldLength[j];
      }
    }
    r := Some(metadata);
  }
}
