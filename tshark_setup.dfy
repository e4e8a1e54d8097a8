/** The pure decisions taken while preparing the tshark extraction: which
    arguments reach the command line, which field names the message type for
    the installed tshark version, and which source-address field the
    capture's EtherType calls for. */
module TsharkSetup {

  datatype Result<T> = Ok(value: T) | Err(msg: string)

  /** The argument prefixes that may be passed on to tshark. */
  const ValidArgPrefixes: seq<string> := ["--", "-T", "-Y", "-r", "-e", "-E", ">"]

  predicate HasValidPrefix(arg: string)
  {
    exists k :: 0 <= k < |ValidArgPrefixes| && ValidArgPrefixes[k] <= arg
  }

  /** What the prefix scan appends for one argument: " " + arg once for every
      listed prefix the argument starts with. */
  function Matches(arg: string, prefixes: seq<string>): string
  {
    if prefixes == [] then ""
    else Matches(arg, prefixes[..|prefixes| - 1]) +
         (if prefixes[|prefixes| - 1] <= arg then " " + arg else "")
  }

  /** The argument string assembled from a list of arguments. */
  function Joined(args: seq<string>): string
  {
    if args == [] then ""
    else Joined(args[..|args| - 1]) + Matches(args[|args| - 1], ValidArgPrefixes)
  }

  /** The tshark command line, or the error raised for an empty argument list
      or for a list none of whose arguments is admitted. */
  function InvokeCommand(args: seq<string>): Result<string>
  {
    if |args| == 0 then Err("invalid argList: no args")
    else if Joined(args) == "" then Err("error running tshark")
    else Ok("tshark" + Joined(args))
  }

  /** Builds the tshark command line by scanning every argument against every
      admitted prefix. */
  method BuildInvokeCommand(argList: seq<string>) returns (r: Result<string>)
    ensures r == InvokeCommand(argList)
    ensures r.Ok? <==> exists i :: 0 <= i < |argList| && HasValidPrefix(argList[i])
  {
    if |argList| == 0 {
      return Err("invalid argList: no args");
    }
    var invokeString := "";
    var i := 0;
    while i < |argList|
      invariant 0 <= i <= |argList|
      invariant invokeString == Joined(argList[..i])
    {
      var arg := argList[i];
      var j := 0;
      while j < |ValidArgPrefixes|
        invariant 0 <= j <= |ValidArgPrefixes|
        invariant invokeString == Joined(argList[..i]) + Matches(arg, ValidArgPrefixes[..j])
      {
        if ValidArgPrefixes[j] <= arg {
          invokeString := invokeString + " " + arg;
        }
        assert ValidArgPrefixes[..j + 1][..j] == ValidArgPrefixes[..j];
        j := j + 1;
      }
      assert ValidArgPrefixes[..j] == ValidArgPrefixes;
      assert argList[..i + 1][..i] == argList[..i];
      i := i + 1;
    }
    assert argList[..i] == argList;
    JoinedEmptyIffNoneAdmitted(argList);
    if invokeString != "" {
      r := Ok("tshark" + invokeString);
    } else {
      r := Err("error running tshark");
    }
  }

  lemma {:induction false} MatchesNone(arg: string, prefixes: seq<string>)
    requires forall k :: 0 <= k < |prefixes| ==> !(prefixes[k] <= arg)
    ensures Matches(arg, prefixes) == ""
  {
    if prefixes != [] {
      MatchesNone(arg, prefixes[..|prefixes| - 1]);
    }
  }

  lemma {:induction false} MatchesUnique(arg: string, prefixes: seq<string>, k: int)
    requires 0 <= k < |prefixes| && prefixes[k] <= arg
    requires forall m :: 0 <= m < |prefixes| && m != k ==> !(prefixes[m] <= arg)
    ensures Matches(arg, prefixes) == " " + arg
  {
    var n := |prefixes| - 1;
    if k == n {
      MatchesNone(arg, prefixes[..n]);
    } else {
      MatchesUnique(arg, prefixes[..n], k);
    }
  }

  /** Two different admitted prefixes differ at a position they both have. */
  lemma AdmittedPrefixesDiffer(m: int, k: int)
    requires 0 <= m < |ValidArgPrefixes| && 0 <= k < |ValidArgPrefixes| && m != k
    ensures exists i :: 0 <= i < |ValidArgPrefixes[m]| && i < |ValidArgPrefixes[k]| &&
                        ValidArgPrefixes[m][i] != ValidArgPrefixes[k][i]
  {
    var p, q := ValidArgPrefixes[m], ValidArgPrefixes[k];
    if p[0] == q[0] {
      assert p[1] != q[1];
    }
  }

  /** No string starts with two different admitted prefixes, so an admitted
      argument is appended exactly once and any other argument is dropped. */
  lemma MatchesOnce(arg: string)
    ensures Matches(arg, ValidArgPrefixes) == if HasValidPrefix(arg) then " " + arg else ""
  {
    var P := ValidArgPrefixes;
    if HasValidPrefix(arg) {
      var k :| 0 <= k < |P| && P[k] <= arg;
      forall m | 0 <= m < |P| && m != k ensures !(P[m] <= arg) {
        if P[m] <= arg {
          AdmittedPrefixesDiffer(m, k);
          assert false;
        }
      }
      MatchesUnique(arg, P, k);
    } else {
      MatchesNone(arg, P);
    }
  }

  /** The assembled string is empty exactly when no argument is admitted. */
  lemma {:induction false} JoinedEmptyIffNoneAdmitted(args: seq<string>)
    ensures Joined(args) == "" <==> forall i :: 0 <= i < |args| ==> !HasValidPrefix(args[i])
  {
    if args != [] {
      var n := |args| - 1;
      JoinedEmptyIffNoneAdmitted(args[..n]);
      MatchesOnce(args[n]);
      assert forall i :: 0 <= i < n ==> args[..n][i] == args[i];
    }
  }

  /** Message-type field for a tshark version given as major, minor and
      sub-version numbers, as the installed-version check decides it: each
      part is range-checked on its own. */
  function MessageIdField(parts: seq<int>): (r: Result<string>)
    ensures r.Ok? ==> |parts| == 3
    ensures r.Ok? ==> r.value == "ptp.v2.messageid" || r.value == "ptp.v2.messagetype"
    ensures r == Ok("ptp.v2.messageid") <==>
              |parts| == 3 && 1 <= parts[0] <= 3 && 0 <= parts[1] <= 4 && 0 <= parts[2] <= 13
    ensures r == Ok("ptp.v2.messagetype") <==>
              |parts| == 3 && parts[0] == 3 && parts[1] == 6 && 0 <= parts[2] <= 3
  {
    if |parts| != 3 then Err("invalid version string")
    else
      var major, minor, sub := parts[0], parts[1], parts[2];
      if 1 <= major <= 3 && 0 <= minor <= 4 && 0 <= sub <= 13 then Ok("ptp.v2.messageid")
      else if major == 3 && minor == 6 && 0 <= sub <= 3 then Ok("ptp.v2.messagetype")
      else Err("no valid tshark version found")
  }

  /** Lexicographic order on (major, minor, sub) version triples. */
  predicate VersionLe(a: seq<int>, b: seq<int>)
    requires |a| == 3 && |b| == 3
  {
    a[0] < b[0] || (a[0] == b[0] && (a[1] < b[1] || (a[1] == b[1] && a[2] <= b[2])))
  }

  /** The old field name is meant for every version from 1.0.0 to 3.4.13, and
      the new one for 3.6.0 to 3.6.3; version parts are never negative. */
  function MessageIdFieldIntended(parts: seq<int>): (r: Result<string>)
    ensures r.Ok? ==> |parts| == 3
    ensures |parts| == 3 && parts[0] >= 0 && parts[1] >= 0 && parts[2] >= 0 ==>
              (r == Ok("ptp.v2.messageid") <==> VersionLe([1, 0, 0], parts) && VersionLe(parts, [3, 4, 13]))
    ensures r == Ok("ptp.v2.messagetype") <==>
              |parts| == 3 && parts[0] == 3 && parts[1] == 6 && 0 <= parts[2] <= 3
  {
    if |parts| != 3 then Err("invalid version string")
    else if parts[0] >= 0 && parts[1] >= 0 && parts[2] >= 0
         && VersionLe([1, 0, 0], parts) && VersionLe(parts, [3, 4, 13]) then Ok("ptp.v2.messageid")
    else if parts[0] == 3 && parts[1] == 6 && 0 <= parts[2] <= 3 then Ok("ptp.v2.messagetype")
    else Err("no valid tshark version found")
  }

  /** The intended check accepts a whole interval of versions: anything
      between two versions that get the old field name gets it too. */
  lemma IntendedAcceptsInterval(lo: seq<int>, v: seq<int>, hi: seq<int>)
    requires |lo| == 3 && |v| == 3 && |hi| == 3
    requires v[0] >= 0 && v[1] >= 0 && v[2] >= 0
    requires MessageIdFieldIntended(lo) == Ok("ptp.v2.messageid")
    requires MessageIdFieldIntended(hi) == Ok("ptp.v2.messageid")
    requires VersionLe(lo, v) && VersionLe(v, hi)
    ensures MessageIdFieldIntended(v) == Ok("ptp.v2.messageid")
  {
  }

  /** As written, the part-by-part check rejects 2.6.10 although it lies
      between 1.0.0 and 3.4.13, which both get the old field name; the
      intended check accepts it. */
  lemma VersionCheckGap()
    ensures MessageIdField([1, 0, 0]) == Ok("ptp.v2.messageid")
    ensures MessageIdField([3, 4, 13]) == Ok("ptp.v2.messageid")
    ensures VersionLe([1, 0, 0], [2, 6, 10]) && VersionLe([2, 6, 10], [3, 4, 13])
    ensures MessageIdField([2, 6, 10]).Err?
    ensures MessageIdFieldIntended([2, 6, 10]) == Ok("ptp.v2.messageid")
  {
  }

  /** An occurrence of pat starting at index k of s. */
  predicate OccursAt(s: string, pat: string, k: int)
  {
    0 <= k && k + |pat| <= |s| && s[k..k + |pat|] == pat
  }

  /** Python's str.find from index i: the first occurrence at or after i, or -1. */
  function FindFrom(s: string, pat: string, i: nat): (r: int)
    decreases |s| - i
    ensures r == -1 || (i <= r && OccursAt(s, pat, r))
    ensures r == -1 ==> forall k :: i <= k ==> !OccursAt(s, pat, k)
    ensures r >= 0 ==> forall k :: i <= k < r ==> !OccursAt(s, pat, k)
  {
    if i + |pat| > |s| then -1
    else if s[i..i + |pat|] == pat then i
    else FindFrom(s, pat, i + 1)
  }

  function Find(s: string, pat: string): int
  {
    FindFrom(s, pat, 0)
  }

  predicate Contains(s: string, pat: string)
  {
    exists k :: 0 <= k <= |s| && OccursAt(s, pat, k)
  }

  /** The source-address field chosen from the first PTP message's EtherType
      text: IPv4 (0800) before IPv6 (86dd) before VLAN-tagged link layer (8100);
      anything else is an error. */
  function SourceField(ethType: string): (r: Result<string>)
    ensures r == Ok("ip.src") <==> Contains(ethType, "0800")
    ensures r == Ok("ipv6.src") <==> !Contains(ethType, "0800") && Contains(ethType, "86dd")
    ensures r == Ok("eth.src") <==>
              !Contains(ethType, "0800") && !Contains(ethType, "86dd") && Contains(ethType, "8100")
    ensures r.Err? <==>
              !Contains(ethType, "0800") && !Contains(ethType, "86dd") && !Contains(ethType, "8100")
  {
    if Find(ethType, "0800") != -1 then Ok("ip.src")
    else if Find(ethType, "86dd") != -1 then Ok("ipv6.src")
    else if Find(ethType, "8100") != -1 then Ok("eth.src")
    else Err("no valid eth.type found")
  }

  /** A VLAN-tagged IPv4 capture lists both 8100 and 0800 and is read by IPv4
      source address. */
  lemma SourceFieldVlanExample()
    ensures SourceField("0x8100,0x0800") == Ok("ip.src")
  {
    assert OccursAt("0x8100,0x0800", "0800", 9);
  }
}
