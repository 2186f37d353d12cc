/** The records the panel sends and the strings the node builds from them. */
module Formats {

  datatype Option<+T> = None | Some(value: T)

  /** A user as the panel lists it (api/panel/user.go). */
  datatype UserInfo = UserInfo(id: int, uuid: string, speedLimit: int, deviceLimit: int)

  function Uuids(us: seq<UserInfo>): set<string> {
    set u | u in us :: u.uuid
  }

  /** No later user of the list has the uuid of this one. */
  ghost predicate IsLast(us: seq<UserInfo>, k: int) {
    0 <= k < |us| && forall i | k < i < |us| :: us[i].uuid != us[k].uuid
  }

  lemma UuidsOne(us: seq<UserInfo>, i: nat)
    requires i < |us|
    ensures Uuids(us[..i + 1]) == Uuids(us[..i]) + {us[i].uuid}
  {
    assert us[..i + 1] == us[..i] + [us[i]];
  }

  function Digits(n: nat): (s: string)
    ensures |s| > 0
  {
    if n < 10 then ['0' + n as char] else Digits(n / 10) + ['0' + (n % 10) as char]
  }

  /** strconv.Itoa. */
  function Itoa(n: int): string {
    if n < 0 then "-" + Digits(-n) else Digits(n)
  }

  predicate IsDigit(c: char) {
    '0' <= c <= '9'
  }

  lemma {:induction false} DigitsAreDigits(n: nat)
    ensures forall k :: 0 <= k < |Digits(n)| ==> IsDigit(Digits(n)[k])
  {
    if n >= 10 { DigitsAreDigits(n / 10); }
  }

  lemma {:induction false} DigitsInjective(a: nat, b: nat)
    requires Digits(a) == Digits(b)
    ensures a == b
  {
    var s := Digits(a);
    assert s[|s| - 1] == '0' + (a % 10) as char == '0' + (b % 10) as char;
    if a >= 10 || b >= 10 {
      assert |Digits(a)| > 1;
      assert Digits(a)[..|s| - 1] == Digits(a / 10) && Digits(b)[..|s| - 1] == Digits(b / 10);
      DigitsInjective(a / 10, b / 10);
    }
  }

  /** The number a decimal numeral stands for. */
  function NumberOf(s: string): int {
    if s == [] then 0 else 10 * NumberOf(s[..|s| - 1]) + (s[|s| - 1] as int - 48)
  }

  /** It is the numeral of the number, without leading zeros. */
  lemma {:induction false} DigitsMean(n: nat)
    ensures NumberOf(Digits(n)) == n && (forall k :: 0 <= k < |Digits(n)| ==> '0' <= Digits(n)[k] <= '9')
    ensures Digits(n)[0] == '0' ==> Digits(n) == "0"
  {
    if n < 10 {
      assert Digits(n)[..0] == [];
    } else {
      var s := Digits(n);
      DigitsMean(n / 10);
      assert s[..|s| - 1] == Digits(n / 10) && s[|s| - 1] as int == 48 + n % 10;
    }
  }

  lemma ItoaMeans(n: int)
    ensures if n < 0 then Itoa(n)[..1] == "-" && NumberOf(Itoa(n)[1..]) == -n else NumberOf(Itoa(n)) == n
  {
    DigitsMean(if n < 0 then -n else n);
    if n < 0 {
      assert Itoa(n)[1..] == Digits(-n);
    }
  }

  lemma ItoaSign(n: int)
    ensures Itoa(n) != [] && (Itoa(n)[0] == '-' <==> n < 0)
  {
    DigitsAreDigits(if n < 0 then -n else n);
  }

  lemma ItoaInjective(a: int, b: int)
    requires Itoa(a) == Itoa(b)
    ensures a == b
  {
    ItoaSign(a);
    ItoaSign(b);
    if a < 0 {
      assert Itoa(a)[1..] == Digits(-a) && Itoa(b)[1..] == Digits(-b);
      DigitsInjective(-a, -b);
    } else {
      DigitsInjective(a, b);
    }
  }

  /** The key by which two user lists are compared. */
  function UserKey(u: UserInfo): string {
    u.uuid + Itoa(u.speedLimit)
  }

  /** For uuids of one length the key stands for the pair it is made of. */
  lemma UserKeyInjective(u: UserInfo, v: UserInfo)
    requires |u.uuid| == |v.uuid|
    ensures UserKey(u) == UserKey(v) <==> u.uuid == v.uuid && u.speedLimit == v.speedLimit
  {
    if UserKey(u) == UserKey(v) {
      assert UserKey(u)[..|u.uuid|] == u.uuid && UserKey(v)[..|u.uuid|] == v.uuid;
      assert UserKey(u)[|u.uuid|..] == Itoa(u.speedLimit) && UserKey(v)[|u.uuid|..] == Itoa(v.speedLimit);
      ItoaInjective(u.speedLimit, v.speedLimit);
    }
  }

  /** For uuids of different lengths it does not. */
  lemma UserKeysCollide()
    ensures UserKey(UserInfo(1, "a", 10, 0)) == UserKey(UserInfo(2, "a1", 0, 0))
  {
    assert Digits(10) == Digits(1) + "0";
  }

  /** format.UserTag. */
  function UserTag(tag: string, uuid: string): string {
    tag + "|" + uuid
  }

  lemma UserTagInjective(tag: string, a: string, b: string)
    ensures UserTag(tag, a) == UserTag(tag, b) <==> a == b
  {
    assert UserTag(tag, a)[|tag| + 1..] == a && UserTag(tag, b)[|tag| + 1..] == b;
  }

  /** The tag of an unnamed node: host, protocol, id. */
  function NodeTag(host: string, protocol: string, id: int): string {
    "[" + host + "]-" + protocol + ":" + Itoa(id)
  }

  /** The tag of a node of a machine with a configured name. */
  function NamedTag(name: string, id: int): string {
    name + "-" + Itoa(id)
  }

  lemma ItoaHasNoColon(n: int)
    ensures ':' !in Itoa(n)
  {
    DigitsAreDigits(if n < 0 then -n else n);
  }

  /** What follows the last `c`. */
  function After(c: char, s: string): string {
    if s == [] || s[|s| - 1] == c then [] else After(c, s[..|s| - 1]) + [s[|s| - 1]]
  }

  lemma {:induction false} AfterLast(c: char, a: string, x: string)
    requires c !in x
    ensures After(c, a + [c] + x) == x
  {
    var s := a + [c] + x;
    if x == [] {
      assert s[|s| - 1] == c;
    } else {
      var y := x[..|x| - 1];
      AfterLast(c, a, y);
      assert s[..|s| - 1] == a + [c] + y;
      assert y + [x[|x| - 1]] == x;
    }
  }

  /** Nodes of one host with different ids never share a tag, whatever their protocols. */
  lemma NodeTagInjective(host: string, p: string, a: int, q: string, b: int)
    requires NodeTag(host, p, a) == NodeTag(host, q, b)
    ensures a == b
  {
    NodeTagIds(host, p, a, host, q, b);
  }

  lemma NodeTagIds(host: string, p: string, a: int, host': string, q: string, b: int)
    requires NodeTag(host, p, a) == NodeTag(host', q, b)
    ensures a == b && "[" + host + "]-" + p == "[" + host' + "]-" + q
  {
    var s, t := "[" + host + "]-" + p, "[" + host' + "]-" + q;
    ItoaHasNoColon(a);
    ItoaHasNoColon(b);
    AfterLast(':', s, Itoa(a));
    AfterLast(':', t, Itoa(b));
    ItoaInjective(a, b);
    assert s == NodeTag(host, p, a)[..|s|] && t == NodeTag(host', q, b)[..|t|] && |s| == |t|;
  }

  lemma HostPart(host: string, p: string)
    requires ']' !in p
    ensures After(']', "[" + host + "]-" + p) == "-" + p
  {
    hide After;
    AfterLast(']', "[" + host, "-" + p);
    assert "[" + host + "]-" + p == "[" + host + [']'] + ("-" + p);
  }

  lemma SameHost(host: string, host': string, p: string)
    requires "[" + host + "]-" + p == "[" + host' + "]-" + p
    ensures host == host'
  {
    var s, t := "[" + host + "]-" + p, "[" + host' + "]-" + p;
    assert |s| == |t| && s[1..1 + |host|] == host && t[1..1 + |host'|] == host';
  }

  /** Nor do nodes of different hosts: with protocols that hold no bracket a tag determines all three. */
  lemma NodeTagExactly(host: string, p: string, a: int, host': string, q: string, b: int)
    requires ']' !in p && ']' !in q
    ensures NodeTag(host, p, a) == NodeTag(host', q, b) <==> host == host' && p == q && a == b
  {
    hide *;
    if NodeTag(host, p, a) == NodeTag(host', q, b) {
      NodeTagIds(host, p, a, host', q, b);
      HostPart(host, p);
      HostPart(host', q);
      assert p == ("-" + p)[1..] && q == ("-" + q)[1..];
      SameHost(host, host', p);
    }
  }

  /** Tags and keys as they are written. */
  lemma TagsAsWritten()
    ensures NodeTag("h", "vmess", 12) == "[h]-vmess:12" && NamedTag("n", 3) == "n-3" && UserTag("t", "u") == "t|u"
    ensures UserKey(UserInfo(1, "a", -10, 0)) == "a-10"
  {
    assert Digits(12) == Digits(1) + "2" && Digits(10) == Digits(1) + "0";
  }

  lemma NamedTagInjective(name: string, a: int, b: int)
    requires NamedTag(name, a) == NamedTag(name, b)
    ensures a == b
  {
    assert NamedTag(name, a)[|name| + 1..] == Itoa(a) && NamedTag(name, b)[|name| + 1..] == Itoa(b);
    ItoaInjective(a, b);
  }
}
