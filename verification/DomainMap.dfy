/** The blocked-domain set and its suffix search (src/dns/domain.rs). */
module DomainMaps {

  /** `str::split('.')`. */
  function Split(s: string): (r: seq<string>)
    ensures |r| >= 1
  {
    if s == "" then [""]
    else if s[0] == '.' then [""] + Split(s[1..])
    else
      var r := Split(s[1..]);
      [[s[0]] + r[0]] + r[1..]
  }

  /** `[str]::join(".")`. */
  function Join(items: seq<string>): string {
    if items == [] then ""
    else if |items| == 1 then items[0]
    else items[0] + "." + Join(items[1..])
  }

  lemma {:induction false} JoinSplit(s: string)
    ensures Join(Split(s)) == s
  {
    if s != "" {
      JoinSplit(s[1..]);
      var r := Split(s[1..]);
      if s[0] == '.' {
        assert ([""] + r)[1..] == r;
      } else {
        var all := [[s[0]] + r[0]] + r[1..];
        assert all[1..] == r[1..];
      }
    }
  }

  lemma {:induction false} SplitHasDot(s: string)
    ensures |Split(s)| >= 2 <==> '.' in s
  {
    if s != "" { SplitHasDot(s[1..]); }
  }

  /** A trailing dot adds one empty label. */
  lemma {:induction false} SplitTrailingDot(s: string)
    ensures Split(s + ".") == Split(s) + [""]
  {
    if s == "" {
      assert "." + "" == ".";
      assert Split(".") == [""] + Split("");
    } else {
      SplitTrailingDot(s[1..]);
      assert (s + ".")[1..] == s[1..] + "." && (s + ".")[0] == s[0];
      var r := Split(s[1..]);
      if s[0] == '.' {
        assert [""] + (r + [""]) == ([""] + r) + [""];
      } else {
        assert (r + [""])[0] == r[0] && (r + [""])[1..] == r[1..] + [""];
      }
    }
  }

  /** Position `k` is where a label of `s` starts. */
  predicate LabelStart(s: string, k: nat) {
    k == 0 || (k <= |s| && s[k - 1] == '.')
  }

  /** Where the i-th label starts. */
  function Offset(s: string, i: nat): (k: nat)
    requires i < |Split(s)|
    ensures k <= |s| && LabelStart(s, k)
    decreases |s|
  {
    if i == 0 then 0
    else if s[0] == '.' then Offset(s[1..], i - 1) + 1
    else Offset(s[1..], i) + 1
  }

  lemma {:induction false} SplitFrom(s: string, i: nat)
    requires i < |Split(s)|
    ensures Split(s)[i..] == Split(s[Offset(s, i)..])
    decreases |s|
  {
    if i == 0 {
      assert s[0..] == s;
    } else {
      var j := if s[0] == '.' then i - 1 else i;
      SplitFrom(s[1..], j);
      var k := Offset(s[1..], j);
      assert s[1..][k..] == s[k + 1..];
    }
  }

  /** Every label start is the start of some label of the split. */
  lemma {:induction false} LabelAt(s: string, k: nat) returns (i: nat)
    requires k <= |s| && LabelStart(s, k)
    ensures i < |Split(s)| && Offset(s, i) == k
    decreases |s|
  {
    if k == 0 {
      i := 0;
    } else if k == 1 {
      i := LabelAt(s[1..], 0);
      i := i + 1;
    } else {
      var j := LabelAt(s[1..], k - 1);
      i := if s[0] == '.' then j + 1 else j;
    }
  }

  /** One trailing dot removed. */
  function Trim(d: string): string {
    if d != "" && d[|d| - 1] == '.' then d[..|d| - 1] else d
  }

  /** Some suffix of the name that starts at a label and has at least two labels is listed. */
  ghost predicate Blocked(domains: set<string>, name: string) {
    exists k :: 0 <= k <= |name| && LabelStart(name, k) && '.' in name[k..] && name[k..] in domains
  }

  /** Joining the labels from the i-th on gives back the suffix that starts there. */
  lemma SuffixFrom(s: string, i: nat)
    requires i < |Split(s)|
    ensures Join(Split(s)[i..]) == s[Offset(s, i)..]
    ensures '.' in s[Offset(s, i)..] <==> i + 1 < |Split(s)|
  {
    SplitFrom(s, i);
    JoinSplit(s[Offset(s, i)..]);
    SplitHasDot(s[Offset(s, i)..]);
  }

  lemma ListedSuffixBlocks(domains: set<string>, name: string, i: nat)
    requires i + 1 < |Split(name)| && name[Offset(name, i)..] in domains
    ensures Blocked(domains, name)
  {
    hide Split, Offset;
    SuffixFrom(name, i);
    var k := Offset(name, i);
    assert LabelStart(name, k);
  }

  lemma NoListedSuffix(domains: set<string>, name: string)
    requires forall j :: 0 <= j < |Split(name)| - 1 ==> name[Offset(name, j)..] !in domains
    ensures !Blocked(domains, name)
  {
    hide Split, Offset;
    forall k | 0 <= k <= |name| && LabelStart(name, k) && '.' in name[k..] ensures name[k..] !in domains {
      var j := LabelAt(name, k);
      SuffixFrom(name, j);
    }
  }

  /** A trailing dot makes no difference to a name without one. */
  lemma TrailingDotIrrelevant(domains: set<string>, d: string)
    requires d == "" || d[|d| - 1] != '.'
    ensures Trim(d + ".") == Trim(d)
    ensures Blocked(domains, Trim(d + ".")) <==> Blocked(domains, Trim(d))
  {
    assert (d + ".")[..|d|] == d;
  }

  class DomainMap {
    var domains: set<string>

    constructor ()
      ensures domains == {}
    {
      domains := {};
    }

    method AddDomain(domain: string)
      modifies this
      ensures domains == old(domains) + {domain}
    {
      domains := domains + {domain};
    }

    /** `contains`. The answer for a name without a trailing dot is the answer for the name with one. */
    method Contains(domain: string) returns (found: bool)
      ensures found <==> Blocked(domains, Trim(domain))
      ensures Trim(domain) == domain ==> (found <==> Blocked(domains, Trim(domain + ".")))
    {
      hide Split, Blocked;
      var items := Split(domain);
      var endsWithDot := domain != "" && domain[|domain| - 1] == '.';
      var endIndex := if endsWithDot then |items| - 1 else |items|;
      ghost var name := Trim(domain);
      if endsWithDot {
        assert domain == name + ".";
        SplitTrailingDot(name);
      } else {
        TrailingDotIrrelevant(domains, domain);
      }
      assert items[..endIndex] == Split(name);
      found := AnySuffix(items, endIndex, name);
    }

    /** The loop of `contains`: tries every suffix from the longest to the one with two labels. */
    method AnySuffix(items: seq<string>, endIndex: nat, ghost name: string) returns (found: bool)
      requires 0 < endIndex <= |items| && items[..endIndex] == Split(name)
      ensures found <==> Blocked(domains, name)
    {
      hide Split, Join, Offset, Blocked;
      var i := 0;
      while i < endIndex - 1
        invariant i <= endIndex - 1
        invariant forall j :: 0 <= j < i ==> name[Offset(name, j)..] !in domains
      {
        assert items[i..endIndex] == Split(name)[i..];
        SuffixFrom(name, i);
        var suffix := Join(items[i..endIndex]);
        if suffix in domains {
          ListedSuffixBlocks(domains, name, i);
          return true;
        }
        i := i + 1;
      }
      NoListedSuffix(domains, name);
      return false;
    }
  }

  /** A listed name with a dot in it blocks itself and every name below it. */
  lemma ListedBlocksBelow(domains: set<string>, listed: string, below: string)
    requires listed in domains && '.' in listed
    ensures Blocked(domains, listed) && Blocked(domains, below + "." + listed)
  {
    assert listed[0..] == listed;
    var name := below + "." + listed;
    var k := |below| + 1;
    assert name[k..] == listed && name[k - 1] == '.';
  }
}
