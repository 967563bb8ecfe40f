/** The initial-cluster string of cluster_other.go and what reading it back gives. */
module InitialCluster {
  import opened Member
  import Decimal
  import Registry

  /** strings.Join. */
  function Join(parts: seq<string>, sep: char): string {
    if parts == [] then "" else if |parts| == 1 then parts[0] else parts[0] + [sep] + Join(parts[1..], sep)
  }

  /** strings.Split on a one-character separator. */
  function Split(s: string, sep: char): (parts: seq<string>)
    ensures |parts| >= 1
  {
    if s == "" then [""]
    else
      var rest := Split(s[1..], sep);
      if s[0] == sep then [""] + rest else [[s[0]] + rest[0]] + rest[1..]
  }

  function Entry(cfg: Config): string {
    cfg.name + "=" + UrlText(cfg.peerUrl)
  }

  function Entries(cfgs: seq<Config>): seq<string> {
    seq(|cfgs|, i requires 0 <= i < |cfgs| => Entry(cfgs[i]))
  }

  function InitialClusterOf(cfgs: seq<Config>): string {
    Join(Entries(cfgs), ',')
  }

  /** The string depends on the names and peer addresses alone. */
  lemma {:induction false} SameEntries(a: seq<Config>, b: seq<Config>)
    requires |a| == |b|
    requires forall i :: 0 <= i < |a| ==> a[i].name == b[i].name && a[i].peerUrl == b[i].peerUrl
    ensures InitialClusterOf(a) == InitialClusterOf(b)
  {
    assert Entries(a) == Entries(b);
  }

  lemma {:induction false} SplitClean(s: string, sep: char)
    requires sep !in s
    ensures Split(s, sep) == [s]
  {
    if s != "" {
      assert s[0] in s;
      SplitClean(s[1..], sep);
      assert [s[0]] + s[1..] == s;
    }
  }

  lemma {:induction false} SplitFirst(s: string, rest: string, sep: char)
    requires sep !in s
    ensures Split(s + [sep] + rest, sep) == [s] + Split(rest, sep)
  {
    var t := s + [sep] + rest;
    if s == "" {
      assert t[1..] == rest;
    } else {
      assert s[0] in s;
      SplitFirst(s[1..], rest, sep);
      assert t[1..] == s[1..] + [sep] + rest;
      assert [s[0]] + s[1..] == s;
    }
  }

  /** Splitting undoes joining. */
  lemma {:induction false} SplitJoin(parts: seq<string>, sep: char)
    requires parts != [] && forall p :: p in parts ==> sep !in p
    ensures Split(Join(parts, sep), sep) == parts
  {
    if |parts| == 1 {
      SplitClean(parts[0], sep);
    } else {
      SplitFirst(parts[0], Join(parts[1..], sep), sep);
      SplitJoin(parts[1..], sep);
    }
  }

  predicate Plain(s: string) {
    ',' !in s && '=' !in s
  }

  /** Splitting the string at ',' gives one entry per member, in order, and splitting an entry at
      '=' gives that member's name and peer URL. */
  lemma {:induction false} ReadsBack(cfgs: seq<Config>)
    requires cfgs != []
    requires forall i :: 0 <= i < |cfgs| ==> Plain(cfgs[i].name) && Plain(UrlText(cfgs[i].peerUrl))
    ensures var parts := Split(InitialClusterOf(cfgs), ',');
            && |parts| == |cfgs|
            && forall i :: 0 <= i < |cfgs| ==>
                 Split(parts[i], '=') == [cfgs[i].name, UrlText(cfgs[i].peerUrl)]
  {
    hide UrlText;
    var parts := Entries(cfgs);
    SplitJoin(parts, ',');
    forall i | 0 <= i < |cfgs| ensures Split(parts[i], '=') == [cfgs[i].name, UrlText(cfgs[i].peerUrl)] {
      var url := UrlText(cfgs[i].peerUrl);
      assert parts[i] == cfgs[i].name + ['='] + url;
      SplitFirst(cfgs[i].name, url, '=');
      SplitClean(url, '=');
    }
  }

  // ---------------------------------------------------------------- names and addresses

  lemma {:induction false} PlainConcat(a: string, b: string)
    requires Plain(a) && Plain(b)
    ensures Plain(a + b)
  {}

  lemma {:induction false} NamesArePlain(n: int)
    ensures Plain(Registry.NodeName(n))
  {
    Decimal.DigitsOnly(if n < 0 then -n else n);
    PlainConcat("node", Decimal.ToString(n));
  }

  lemma {:induction false} HostIsPlain(port: int)
    ensures Plain(Registry.HostAt(port))
  {
    Decimal.DigitsOnly(if port < 0 then -port else port);
    PlainConcat("localhost:", Decimal.ToString(port));
  }

  lemma {:induction false} UrlsArePlain(scheme: string, port: int)
    requires scheme in {"http", "https"}
    ensures Plain(UrlText(Url(scheme, Registry.HostAt(port))))
  {
    hide Plain, Registry.HostAt;
    HostIsPlain(port);
    SchemeIsPlain(scheme);
    PlainConcat(scheme + "://", Registry.HostAt(port));
  }

  lemma {:induction false} SchemeIsPlain(scheme: string)
    requires scheme in {"http", "https"}
    ensures Plain(scheme + "://")
  {}
}
