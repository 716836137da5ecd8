/**
 The hash that keys the user-clean cache: a stream of octets made from the client address, the
 user agent and a URL is folded through a table of words. A page and a Referer that names it
 give the same stream.
 */
module PageHash {
  import opened Options
  import opened HttpParser

  const TABLE_WORDS: nat := 0x1000
  const UA_MAX: nat := 15
  const URL_MAX: nat := 200
  const PREFIX := "http://"

  /** The table of words that user_clean_init_ip_ua_url_crypt_table fills. */
  type Table = t: seq<bv64> | |t| == TABLE_WORDS witness seq(TABLE_WORDS, _ => 0)

  /** The three hashes of a key use three stretches of the table. */
  datatype HashType = HashOffset | HashA | HashB {
    function Base(): (n: nat)
      ensures n + 0x100 <= 0x500
    {
      match this
      case HashOffset => 0
      case HashA => 0x100
      case HashB => 0x200
    }
  }

  datatype Seeds = Seeds(one: bv64, two: bv64)

  const START := Seeds(0x7FED7FED, 0xEEEEEEEE)

  /** One octet; only the words below 0x500 that the table's initialisation fills are read. */
  function Mix(table: Table, hashType: HashType, s: Seeds, ch: char): Seeds {
    var code := ch as int % 0x100;
    var one := table[hashType.Base() + code] ^ (s.one + s.two);
    Seeds(one, (code as bv64) + one + s.two + (s.two << 5) + 3)
  }

  function Mixer(table: Table, hashType: HashType): (Seeds, char) -> Seeds {
    (s, ch) => Mix(table, hashType, s, ch)
  }

  function Fold<S>(mix: (S, char) -> S, s: S, text: string): S {
    if text == "" then s else mix(Fold(mix, s, text[..|text| - 1]), text[|text| - 1])
  }

  /** The decimal digits of an address, the lowest first; none for zero. */
  function Digits(ip: nat): string {
    if ip == 0 then "" else [DigitChar(ip % 10)] + Digits(ip / 10)
  }

  function DigitChar(d: nat): char
    requires d < 10
  {
    (48 + d) as char
  }

  function Take(s: string, n: nat): string {
    if |s| <= n then s else s[..n]
  }

  /** The text between two pointers, both ends included. */
  function Text(b: string, s: Slice): string
    requires Inside(b, s)
  {
    if s.start.None? || s.end.None? || s.end.value < s.start.value then ""
    else b[s.start.value..s.end.value + 1]
  }

  predicate Inside(b: string, s: Slice) {
    s.start.Some? && s.end.Some? ==> 0 <= s.start.value <= s.end.value + 1 <= |b|
  }

  /** The URL of a page: its host after the scheme, when there is one, and its URI. */
  function Url(host: Option<string>, uri: string): string {
    (match host case None => "" case Some(h) => PREFIX + h) + uri
  }

  /** What is folded for a page. */
  function Stream(ip: nat, ua: string, host: Option<string>, uri: string): string {
    Digits(ip) + Take(ua, UA_MAX) + Take(Url(host, uri), URL_MAX)
  }

  function HashOf(table: Table, hashType: HashType, stream: string): bv64 {
    Fold(Mixer(table, hashType), START, stream).one
  }

  lemma FoldOne<S>(mix: (S, char) -> S, s: S, text: string, ch: char)
    ensures Fold(mix, s, text + [ch]) == mix(Fold(mix, s, text), ch)
  {
    assert (text + [ch])[..|text|] == text;
  }

  lemma {:induction false} FoldAppend<S>(mix: (S, char) -> S, s: S, a: string, c: string)
    ensures Fold(mix, s, a + c) == Fold(mix, Fold(mix, s, a), c)
  {
    if c == "" {
      assert a + c == a;
    } else {
      var init := c[..|c| - 1];
      FoldAppend(mix, s, a, init);
      assert a + c == (a + init) + [c[|c| - 1]];
      FoldOne(mix, s, a + init, c[|c| - 1]);
    }
  }

  /** The loops of the hash over octets between two pointers, while a counter is below max. */
  method FoldRange<S>(mix: (S, char) -> S, seeds: S, b: string, s: Slice, count: nat, max: nat)
    returns (r: S, z: nat)
    requires Inside(b, s) && s.start.Some? && s.end.Some? && count <= max
    ensures r == Fold(mix, seeds, Take(Text(b, s), max - count))
    ensures z == count + |Take(Text(b, s), max - count)|
  {
    r, z := seeds, count;
    var key := s.start.value;
    ghost var text := Text(b, s);
    while key <= s.end.value && z < max
      invariant s.start.value <= key <= s.end.value + 1 && z == count + (key - s.start.value) && z <= max
      invariant r == Fold(mix, seeds, text[..key - s.start.value])
      decreases s.end.value - key + 1
    {
      ghost var n := key - s.start.value;
      FoldOne(mix, seeds, text[..n], b[key]);
      assert text[..n] + [b[key]] == text[..n + 1];
      r := mix(r, b[key]);
      key := key + 1;
      z := z + 1;
    }
    assert text[..key - s.start.value] == Take(text, max - count);
  }

  method FoldDigits<S>(mix: (S, char) -> S, start: S, ip: nat) returns (seeds: S)
    ensures seeds == Fold(mix, start, Digits(ip))
  {
    seeds := start;
    var left := ip;
    ghost var done := "";
    while left != 0
      invariant Digits(ip) == done + Digits(left)
      invariant seeds == Fold(mix, start, done)
    {
      var ch := DigitChar(left % 10);
      FoldOne(mix, start, done, ch);
      assert done + Digits(left) == (done + [ch]) + Digits(left / 10);
      seeds := mix(seeds, ch);
      left := left / 10;
      done := done + [ch];
    }
    assert done + "" == done;
  }

  /** What is folded for a host: the scheme, and the host cut so that both fit the length of a URL. */
  function FrontOf(host: Option<string>): (front: string)
    ensures |front| <= URL_MAX
  {
    match host
    case None => ""
    case Some(h) => PREFIX + Take(h, URL_MAX - 7)
  }

  method FoldPrefix<S>(mix: (S, char) -> S, start: S) returns (seeds: S, z: nat)
    ensures seeds == Fold(mix, start, PREFIX) && z == 7
  {
    seeds, z := start, 0;
    while z < 7
      invariant z <= 7 && seeds == Fold(mix, start, PREFIX[..z])
    {
      FoldOne(mix, start, PREFIX[..z], PREFIX[z]);
      assert PREFIX[..z] + [PREFIX[z]] == PREFIX[..z + 1];
      seeds := mix(seeds, PREFIX[z]);
      z := z + 1;
    }
    assert PREFIX[..7] == PREFIX;
  }

  method FoldHost<S>(mix: (S, char) -> S, start: S, b: string, host: Slice) returns (seeds: S, z: nat)
    requires Inside(b, host)
    ensures seeds == Fold(mix, start, FrontOf(HostText(b, host))) && z == |FrontOf(HostText(b, host))|
  {
    seeds, z := start, 0;
    if host.end.Some? && host.start.Some? {
      seeds, z := FoldPrefix(mix, start);
      FoldAppend(mix, start, PREFIX, Take(Text(b, host), URL_MAX - 7));
      seeds, z := FoldRange(mix, seeds, b, host, z, URL_MAX);
    }
  }

  method FoldUrl<S>(mix: (S, char) -> S, start: S, b: string, host: Slice, uri: Slice) returns (seeds: S)
    requires Inside(b, host) && Inside(b, uri) && uri.start.Some? && uri.end.Some?
    ensures seeds == Fold(mix, start, Take(Url(HostText(b, host), Text(b, uri)), URL_MAX))
  {
    var z;
    seeds, z := FoldHost(mix, start, b, host);
    UrlFolds(mix, start, HostText(b, host), Text(b, uri));
    seeds, z := FoldRange(mix, seeds, b, uri, z, URL_MAX);
  }

  /** Folding the front and then what still fits of the URI is folding the cut URL. */
  lemma UrlFolds<S>(mix: (S, char) -> S, start: S, host: Option<string>, uri: string)
    ensures Fold(mix, Fold(mix, start, FrontOf(host)), Take(uri, URL_MAX - |FrontOf(host)|))
         == Fold(mix, start, Take(Url(host, uri), URL_MAX))
  {
    var front, back := FrontOf(host), Take(uri, URL_MAX - |FrontOf(host)|);
    FoldAppend(mix, start, front, back);
    UrlCut(host, uri, front, back);
  }

  method FoldStream<S>(mix: (S, char) -> S, start: S, b: string, ip: nat, host: Slice, ua: Slice, uri: Slice)
    returns (seeds: S)
    requires Inside(b, host) && Inside(b, ua) && Inside(b, uri)
    requires ua.start.Some? && ua.end.Some? && uri.start.Some? && uri.end.Some?
    ensures seeds == Fold(mix, start, Stream(ip, Text(b, ua), HostText(b, host), Text(b, uri)))
  {
    seeds := FoldDigits(mix, start, ip);
    var j;
    seeds, j := FoldRange(mix, seeds, b, ua, 0, UA_MAX);
    seeds := FoldUrl(mix, seeds, b, host, uri);
    ghost var agent, url := Take(Text(b, ua), UA_MAX), Take(Url(HostText(b, host), Text(b, uri)), URL_MAX);
    FoldAppend(mix, start, Digits(ip), agent);
    FoldAppend(mix, start, Digits(ip) + agent, url);
  }

  /** user_clean_get_ip_ua_url_hash, with the parameters in the order of its header. */
  method GetHash(table: Table, b: string, ip: nat, host: Slice, ua: Slice, uri: Slice, hashType: HashType)
    returns (hash: bv64)
    requires Inside(b, host) && Inside(b, ua) && Inside(b, uri)
    requires ua.start.Some? && ua.end.Some? && uri.start.Some? && uri.end.Some?
    ensures hash == HashOf(table, hashType, Stream(ip, Text(b, ua), HostText(b, host), Text(b, uri)))
  {
    var seeds := FoldStream(Mixer(table, hashType), START, b, ip, host, ua, uri);
    return seeds.one;
  }

  function HostText(b: string, host: Slice): Option<string>
    requires Inside(b, host)
  {
    if host.start.Some? && host.end.Some? then Some(Text(b, host)) else None
  }

  lemma UrlCut(host: Option<string>, uri: string, front: string, back: string)
    requires front == FrontOf(host) && back == Take(uri, URL_MAX - |front|)
    ensures front + back == Take(Url(host, uri), URL_MAX)
  {
  }

  /** A page and a Referer that spells its URL have the same hashes, however long they are. */
  lemma KeyAgreement(table: Table, hashType: HashType, ip: nat, ua: string, host: string, uri: string)
    ensures HashOf(table, hashType, Stream(ip, ua, Some(host), uri))
         == HashOf(table, hashType, Stream(ip, ua, None, PREFIX + host + uri))
  {
    assert Url(None, PREFIX + host + uri) == Url(Some(host), uri);
  }

  // ----- what tells pages apart

  /** The texts are the same in their first n octets; if one ends before, so does the other. */
  predicate Agree(a: string, c: string, n: nat) {
    && (|a| < n || |c| < n ==> |a| == |c|)
    && forall i :: 0 <= i < n && i < |a| && i < |c| ==> a[i] == c[i]
  }

  lemma TakeAgree(a: string, c: string, n: nat)
    ensures Take(a, n) == Take(c, n) <==> Agree(a, c, n)
  {
    var x, y := Take(a, n), Take(c, n);
    assert forall i :: 0 <= i < n && i < |a| ==> i < |x| && x[i] == a[i];
    assert forall i :: 0 <= i < n && i < |c| ==> i < |y| && y[i] == c[i];
  }

  /** The URL of a page without a host is its URI; with one it is the scheme, the host and the URI. */
  lemma UrlText(host: string, uri: string)
    ensures Url(Some(host), uri) == "http://" + host + uri && Url(None, uri) == uri
  {
  }

  lemma SameEnds(a: string, x: string, y: string, c: string)
    ensures a + x + c == a + y + c <==> x == y
    ensures a + x == a + y <==> x == y
  {
    var n := |a|;
    assert a + x + c == a + y + c ==> |x| == |y| && (a + x + c)[n..n + |x|] == x && (a + y + c)[n..n + |y|] == y;
    assert a + x == a + y ==> (a + x)[n..] == x && (a + y)[n..] == y;
  }

  /** For one user, two pages give the same stream exactly if their URLs agree in the first 200 octets. */
  lemma PagesApart(ip: nat, ua: string, host: string, uri: string, host': string, uri': string)
    ensures Stream(ip, ua, Some(host), uri) == Stream(ip, ua, Some(host'), uri')
       <==> Agree("http://" + host + uri, "http://" + host' + uri', 200)
  {
    var url, url' := "http://" + host + uri, "http://" + host' + uri';
    TakeAgree(url, url', 200);
    SameEnds(Digits(ip) + Take(ua, UA_MAX), Take(url, 200), Take(url', 200), "");
  }

  /** A page and a Referer give the same stream exactly if the Referer agrees with the URL in as many octets. */
  lemma RefererExact(ip: nat, ua: string, host: string, uri: string, referer: string)
    ensures Stream(ip, ua, Some(host), uri) == Stream(ip, ua, None, referer)
       <==> Agree("http://" + host + uri, referer, 200)
  {
    var url := "http://" + host + uri;
    TakeAgree(url, referer, 200);
    SameEnds(Digits(ip) + Take(ua, UA_MAX), Take(url, 200), Take(referer, 200), "");
    UrlText(host, referer);
  }

  /** For one address and page, two user agents give the same stream exactly if they agree in 15 octets. */
  lemma AgentsApart(ip: nat, ua: string, ua': string, host: Option<string>, uri: string)
    ensures Stream(ip, ua, host, uri) == Stream(ip, ua', host, uri) <==> Agree(ua, ua', 15)
  {
    TakeAgree(ua, ua', 15);
    SameEnds(Digits(ip), Take(ua, 15), Take(ua', 15), Take(Url(host, uri), URL_MAX));
  }

  /** The value of a text of decimal digits, the lowest first. */
  function Value(digits: string): int {
    if digits == "" then 0 else digits[0] as int - '0' as int + 10 * Value(digits[1..])
  }

  /** The digits of an address spell it, without a zero at the high end. */
  lemma {:induction false} DigitsExact(ip: nat)
    ensures var d := Digits(ip);
      && Value(d) == ip && (forall i :: 0 <= i < |d| ==> '0' <= d[i] <= '9') && (d != "" ==> d[|d| - 1] != '0')
  {
    if ip != 0 {
      var d, rest := Digits(ip), Digits(ip / 10);
      DigitsExact(ip / 10);
      assert d[1..] == rest && d[0] as int == 48 + ip % 10;
      assert rest == "" ==> ip / 10 == 0;
    }
  }

  /** Different addresses have different digits. */
  lemma AddressesApart(ip: nat, ip': nat)
    ensures Digits(ip) == Digits(ip') <==> ip == ip'
  {
    DigitsExact(ip);
    DigitsExact(ip');
  }

  /** For one user agent and page of an address, the streams of two addresses with as many digits differ. */
  lemma StreamsApart(ip: nat, ip': nat, ua: string, ua': string, host: Option<string>, uri: string, uri': string)
    requires |Digits(ip)| == |Digits(ip')| && Stream(ip, ua, host, uri) == Stream(ip', ua', host, uri')
    ensures ip == ip'
  {
    var s, n := Stream(ip, ua, host, uri), |Digits(ip)|;
    assert s[..n] == Digits(ip) && Stream(ip', ua', host, uri')[..n] == Digits(ip');
    AddressesApart(ip, ip');
  }

  /** The digits run on into the user agent: two users whose pages have the same key. */
  lemma UsersConfused(host: Option<string>, uri: string)
    ensures Stream(1, "2", host, uri) == Stream(21, "", host, uri)
  {
    assert Digits(1) == "1" && Digits(2) == "2" && Digits(21) == "12";
    assert "1" + "2" == "12" + "";
  }

  // ----- the hash of a stream

  lemma FirstSum()
    ensures START.one + START.two == 0x1_6EDC_6EDB
  {
  }

  lemma FoldOfOne(table: Table, t: HashType, c: char)
    ensures Fold(Mixer(table, t), START, [c]) == Mix(table, t, START, c)
  {
    FoldOne(Mixer(table, t), START, "", c);
    assert "" + [c] == [c];
  }

  /** The hashes of one octet; each has its own stretch of the table. */
  lemma HashOfOne(table: Table, c: char)
    requires c as int < 0x100
    ensures HashOf(table, HashOffset, [c]) == table[c as int] ^ 0x1_6EDC_6EDB
    ensures HashOf(table, HashA, [c]) == table[0x100 + c as int] ^ 0x1_6EDC_6EDB
    ensures HashOf(table, HashB, [c]) == table[0x200 + c as int] ^ 0x1_6EDC_6EDB
  {
    OffsetOfOne(table, c);
    HashAOfOne(table, c);
    HashBOfOne(table, c);
  }

  lemma OffsetOfOne(table: Table, c: char)
    requires c as int < 0x100
    ensures HashOf(table, HashOffset, [c]) == table[c as int] ^ 0x1_6EDC_6EDB
  {
    FoldOfOne(table, HashOffset, c);
    FirstSum();
  }

  lemma HashAOfOne(table: Table, c: char)
    requires c as int < 0x100
    ensures HashOf(table, HashA, [c]) == table[0x100 + c as int] ^ 0x1_6EDC_6EDB
  {
    FoldOfOne(table, HashA, c);
    FirstSum();
  }

  lemma HashBOfOne(table: Table, c: char)
    requires c as int < 0x100
    ensures HashOf(table, HashB, [c]) == table[0x200 + c as int] ^ 0x1_6EDC_6EDB
  {
    FoldOfOne(table, HashB, c);
    FirstSum();
  }

  const ZEROS: Table := seq(TABLE_WORDS, _ => 0)

  /** Over a table of zeros the hash is what the seeds add up to. */
  lemma HashOfThree()
    ensures HashOf(ZEROS, HashOffset, "abc") == 0x46B_05DC_0F82
  {
    var m := Mixer(ZEROS, HashOffset);
    FoldOfOne(ZEROS, HashOffset, 'a');
    FoldOne(m, START, "a", 'b');
    FoldOne(m, START, "ab", 'c');
    assert ['a'] == "a" && "a" + ['b'] == "ab" && "ab" + ['c'] == "abc";
    MixOne();
    MixTwo();
    MixThree();
  }

  lemma MixOne()
    ensures Mix(ZEROS, HashOffset, START, 'a') == Seeds(0x1_6EDC_6EDB, 0x20_3BA9_3BED)
  {
    assert ZEROS[97] == 0;
  }

  lemma MixTwo()
    ensures Mix(ZEROS, HashOffset, Seeds(0x1_6EDC_6EDB, 0x20_3BA9_3BED), 'b') == Seeds(0x21_AA85_AAC8, 0x449_5B56_64BA)
  {
    assert ZEROS[98] == 0;
  }

  lemma MixThree()
    ensures Mix(ZEROS, HashOffset, Seeds(0x21_AA85_AAC8, 0x449_5B56_64BA), 'c').one == 0x46B_05DC_0F82
  {
    assert ZEROS[99] == 0;
  }
}
