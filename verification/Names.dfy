// The texts the program builds for keys and conversations: which of them can be
// told apart, and which can be read back.
module Names {

  /** The order of Go strings. */
  predicate StrLe(a: string, b: string)
    decreases |a|
  {
    a == "" || (b != "" && (a[0] < b[0] || (a[0] == b[0] && StrLe(a[1..], b[1..]))))
  }

  lemma {:induction false} StrLeOrder(a: string, b: string)
    ensures StrLe(a, b) || StrLe(b, a)
    ensures StrLe(a, b) && StrLe(b, a) ==> a == b
    decreases |a|
  {
    if a == "" || b == "" || a[0] != b[0] {
    } else {
      StrLeOrder(a[1..], b[1..]);
      assert a == [a[0]] + a[1..] && b == [b[0]] + b[1..];
    }
  }

  lemma OtherStart(a: string, b: string, i: nat)
    requires 0 < i <= |a| && i <= |b| && a[0] != b[0]
    ensures a[..i] != b[..i]
  {
    assert a[..i][0] == a[0] && b[..i][0] == b[0];
  }

  /** Text order: the first text is the start of the second, or smaller where they first differ. */
  lemma {:induction false} StrLeIsTextOrder(a: string, b: string)
    ensures StrLe(a, b) <==>
      || a <= b
      || (exists i :: 0 <= i < |a| && i < |b| && a[i] < b[i] && a[..i] == b[..i])
    decreases |a|
  {
    if a == "" || b == "" || a[0] != b[0] {
      if a != "" && b != "" && a[0] < b[0] {
        assert a[..0] == b[..0];
      }
      forall i | 0 < i <= |a| && i <= |b| ensures a[..i] != b[..i] {
        OtherStart(a, b, i);
      }
    } else {
      var x, y := a[1..], b[1..];
      StrLeIsTextOrder(x, y);
      assert a == [a[0]] + x && b == [b[0]] + y;
      if i :| 0 <= i < |x| && i < |y| && x[i] < y[i] && x[..i] == y[..i] {
        assert a[..i + 1] == [a[0]] + x[..i] && b[..i + 1] == [b[0]] + y[..i];
        assert a[i + 1] < b[i + 1];
      }
      if i :| 0 <= i < |a| && i < |b| && a[i] < b[i] && a[..i] == b[..i] {
        assert x[..i - 1] == a[..i][1..] && y[..i - 1] == b[..i][1..];
        assert x[i - 1] < y[i - 1];
      }
    }
  }

  // ---- conversation IDs (module/chat/seq/util.go) ----

  function NormPair(a: string, b: string): (string, string) {
    if StrLe(a, b) then (a, b) else (b, a)
  }

  function BuildP2PConvID(a: string, b: string): string {
    var (lo, hi) := NormPair(a, b);
    "p2p:" + lo + "_" + hi
  }

  /** The smaller user ID comes first. */
  lemma ConvIDForm(a: string, b: string)
    requires StrLe(a, b)
    ensures BuildP2PConvID(a, b) == "p2p:" + a + "_" + b
    ensures BuildP2PConvID(b, a) == "p2p:" + a + "_" + b
  {
    StrLeOrder(a, b);
  }

  lemma ConvIDSymmetric(a: string, b: string)
    ensures NormPair(a, b) == NormPair(b, a)
    ensures BuildP2PConvID(a, b) == BuildP2PConvID(b, a)
  {
    StrLeOrder(a, b);
  }

  /** The first pair is cut before some text `z`, the second after it. */
  ghost predicate Overlap(p: (string, string), q: (string, string)) {
    exists z :: q.0 == p.0 + "_" + z && p.1 == z + "_" + q.1
  }

  lemma CutElsewhere(p: (string, string), q: (string, string))
    requires p.0 + "_" + p.1 == q.0 + "_" + q.1
    requires |p.0| < |q.0|
    ensures Overlap(p, q)
  {
    var s, n := p.0 + "_" + p.1, |p.0|;
    assert s == q.0 + "_" + q.1;
    var z := q.0[n + 1..];
    assert q.0 == s[..|q.0|] && p.0 == s[..n] && s[n] == '_';
    assert q.0 == p.0 + "_" + z;
    assert p.1 == s[n + 1..];
    assert p.1 == z + "_" + q.1;
  }

  /** Two pairs of users share a conversation ID exactly when they are the same unordered pair, or
      one pair can be cut out of the other at a different underscore. */
  lemma ConvIDCollision(a: string, b: string, c: string, d: string)
    ensures BuildP2PConvID(a, b) == BuildP2PConvID(c, d) <==>
      var p, q := NormPair(a, b), NormPair(c, d);
      p == q || Overlap(p, q) || Overlap(q, p)
  {
    var p, q := NormPair(a, b), NormPair(c, d);
    var s, t := p.0 + "_" + p.1, q.0 + "_" + q.1;
    assert BuildP2PConvID(a, b) == "p2p:" + s && BuildP2PConvID(c, d) == "p2p:" + t;
    assert ("p2p:" + s)[4..] == s && ("p2p:" + t)[4..] == t;
    if s == t {
      if |p.0| < |q.0| {
        CutElsewhere(p, q);
      } else if |q.0| < |p.0| {
        CutElsewhere(q, p);
      } else {
        assert p.0 == s[..|p.0|] && q.0 == t[..|q.0|];
        assert p.1 == s[|p.0| + 1..] && q.1 == t[|q.0| + 1..];
      }
    } else if Overlap(p, q) {
      OverlapJoins(p, q);
    } else if Overlap(q, p) {
      OverlapJoins(q, p);
    }
  }

  lemma OverlapJoins(p: (string, string), q: (string, string))
    requires Overlap(p, q)
    ensures p.0 + "_" + p.1 == q.0 + "_" + q.1
  {
    var z :| q.0 == p.0 + "_" + z && p.1 == z + "_" + q.1;
    assert p.0 + "_" + (z + "_" + q.1) == (p.0 + "_" + z) + "_" + q.1;
  }

  /** So IDs without underscores never collide. */
  lemma ConvIDInjective(a: string, b: string, c: string, d: string)
    requires '_' !in a && '_' !in b && '_' !in c && '_' !in d
    requires BuildP2PConvID(a, b) == BuildP2PConvID(c, d)
    ensures (a == c && b == d) || (a == d && b == c)
  {
    ConvIDCollision(a, b, c, d);
    var p, q := NormPair(a, b), NormPair(c, d);
    if p != q {
      if Overlap(p, q) {
        HasUnderscore(p, q);
      } else {
        HasUnderscore(q, p);
      }
    }
  }

  lemma HasUnderscore(p: (string, string), q: (string, string))
    requires Overlap(p, q)
    ensures '_' in q.0
  {
    var z :| q.0 == p.0 + "_" + z && p.1 == z + "_" + q.1;
    assert q.0[|p.0|] == '_';
  }

  /** And with underscores they can. */
  lemma ConvIDCollides()
    ensures BuildP2PConvID("a", "b_c") == BuildP2PConvID("a_b", "c")
  {
    assert NormPair("a", "b_c") == ("a", "b_c");
    assert NormPair("a_b", "c") == ("a_b", "c");
    assert Overlap(("a", "b_c"), ("a_b", "c")) by {
      assert "a_b" == "a" + "_" + "b" && "b_c" == "b" + "_" + "c";
    }
    ConvIDCollision("a", "b_c", "a_b", "c");
  }

  // ---- presence keys (service/storage/online.go) ----

  function UnauthKeyText(node: string, snow: string): string {
    "n:{" + node + "}:id:" + snow
  }

  function SessionKeyText(node: string, user: string, snow: string): string {
    "n:{" + node + ":" + user + "}:id:" + snow
  }

  function UserIndexText(node: string, user: string): string {
    "nidx:{" + node + ":" + user + "}"
  }

  /** The forms the program documents. */
  lemma KeyForms()
    ensures UserIndexText("gateway_01", "user_10001") == "nidx:{gateway_01:user_10001}"
    ensures SessionKeyText("gateway_01", "user_10001", "7") == "n:{gateway_01:user_10001}:id:7"
    ensures UnauthKeyText("gateway_01", "7") == "n:{gateway_01}:id:7"
  {
  }

  /** The last closing brace ends the tag, when the part after the tag has none. */
  lemma TagEnds(tag: string, rest: string, tag': string, rest': string)
    requires '}' !in rest
    requires tag + "}" + rest == tag' + "}" + rest'
    ensures |tag'| <= |tag|
  {
    var s := tag + "}" + rest;
    assert s == tag' + "}" + rest' && s[|tag'|] == '}';
    assert forall i :: |tag| < i < |s| ==> s[i] == rest[i - |tag| - 1];
  }

  lemma SameTag(tag: string, rest: string, tag': string, rest': string)
    requires '}' !in rest && '}' !in rest'
    requires tag + "}" + rest == tag' + "}" + rest'
    ensures tag == tag' && rest == rest'
  {
    TagEnds(tag, rest, tag', rest');
    TagEnds(tag', rest', tag, rest);
    var s := tag + "}" + rest;
    assert tag == s[..|tag|] && tag' == s[..|tag|];
    assert rest == s[|tag| + 1..] && rest' == s[|tag| + 1..];
  }

  /** On one node, session keys of different users or different connections differ, and differ from
      every unauthorised key: snow IDs are decimal, so they hold no brace. */
  lemma SessionKeysDistinct(node: string, u: string, s: string, v: string, t: string)
    requires '}' !in s && '}' !in t
    ensures SessionKeyText(node, u, s) == SessionKeyText(node, v, t) ==> u == v && s == t
    ensures UnauthKeyText(node, s) == UnauthKeyText(node, t) ==> s == t
    ensures SessionKeyText(node, u, s) != UnauthKeyText(node, t)
  {
    var pre := "n:{" + node;
    var x, y, z := pre + ":" + u, pre + ":" + v, pre;
    assert SessionKeyText(node, u, s) == x + "}" + (":id:" + s);
    assert SessionKeyText(node, v, t) == y + "}" + (":id:" + t);
    assert UnauthKeyText(node, s) == z + "}" + (":id:" + s);
    assert UnauthKeyText(node, t) == z + "}" + (":id:" + t);
    if SessionKeyText(node, u, s) == SessionKeyText(node, v, t) {
      SameTag(x, ":id:" + s, y, ":id:" + t);
      assert u == x[|pre| + 1..] && v == y[|pre| + 1..];
      assert s == (":id:" + s)[4..] && t == (":id:" + t)[4..];
    }
    if UnauthKeyText(node, s) == UnauthKeyText(node, t) {
      SameTag(z, ":id:" + s, z, ":id:" + t);
      assert s == (":id:" + s)[4..] && t == (":id:" + t)[4..];
    }
    assert SessionKeyText(node, u, s)[|pre|] == ':' && UnauthKeyText(node, t)[|pre|] == '}';
  }

  /** The first position of `c`, or the length when there is none. */
  function Find(s: string, c: char): (i: nat)
    ensures i <= |s|
    ensures i < |s| ==> s[i] == c
    ensures forall j :: 0 <= j < i ==> s[j] != c
  {
    if s == "" then 0 else if s[0] == c then 0 else 1 + Find(s[1..], c)
  }

  function ExtractGateway(key: string): string {
    var start, end := Find(key, '{'), Find(key, '}');
    if start == |key| || end == |key| || end <= start + 1 then ""
    else
      var body := key[start + 1..end];
      body[..Find(body, ':')]
  }

  /** A text without both braces, or with nothing between the first of each, names no gateway. */
  lemma NoGateway(key: string)
    requires '{' !in key || '}' !in key || Find(key, '}') <= Find(key, '{') + 1
    ensures ExtractGateway(key) == ""
  {
  }

  /** The gateway is read back from a user index key exactly when its name holds neither a colon nor
      a closing brace. */
  lemma GatewayRoundTrip(node: string, user: string)
    ensures ExtractGateway(UserIndexText(node, user)) == node <==> ':' !in node && '}' !in node
  {
    var key := UserIndexText(node, user);
    var tag := node + ":" + user + "}";
    assert key == "nidx:{" + tag;
    var start, end := Find(key, '{'), Find(key, '}');
    assert key[5] == '{' && forall j :: 0 <= j < 5 ==> key[j] == "nidx:"[j];
    assert start == 5;
    assert key[|key| - 1] == '}';
    assert forall j :: 0 <= j < |node| ==> key[6 + j] == node[j];
    assert key[6 + |node|] == ':';
    assert end >= 6 && end < |key|;
    if end > 6 {
      var body := key[6..end];
      var cut := Find(body, ':');
      assert forall j :: 0 <= j < |body| ==> body[j] == key[6 + j];
      if '}' !in node {
        assert end > 6 + |node|;
        assert body[|node|] == ':';
        assert body[..|node|] == node;
        if ':' !in node {
          assert cut == |node|;
        } else {
          var j :| 0 <= j < |node| && node[j] == ':';
          assert body[j] == ':';
          assert cut < |node|;
        }
      } else {
        var j :| 0 <= j < |node| && node[j] == '}';
        assert key[6 + j] == '}';
        assert |body| < |node|;
      }
    } else {
      assert key[6] == '}';
      assert node != "" && node[0] == '}';
    }
  }
}
