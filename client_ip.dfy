/**
 * The client address of a request, read from the proxy headers: the first
 * hop of `x-forwarded-for`, else `x-real-ip`, else the word `unknown`.
 */
module ClientIp {
  import opened Text
  import opened Wrappers

  const Unknown: string := "unknown"

  /** The part of a header value before its first comma, or all of it when it has none. */
  function BeforeFirstComma(s: string): string {
    var k := IndexOf(s, ",");
    if k >= 0 then s[..k] else s
  }

  /**
   * `forwardedFor?.split(",")[0]?.trim() || realIp?.trim() || "unknown"`, with
   * each header given as the value `headers.get` returns, `None` for `null`.
   * A split always has a first part, and an empty string is falsy.
   */
  function GetClientIp(forwardedFor: Option<string>, realIp: Option<string>): (ip: string)
    ensures ip != ""
  {
    var fromForwarded := if forwardedFor.Some? then Trim(Split(forwardedFor.value, ',')[0]) else "";
    var fromReal := if realIp.Some? then Trim(realIp.value) else "";
    if fromForwarded != "" then fromForwarded
    else if fromReal != "" then fromReal
    else Unknown
  }

  /** The first part of a split ends at the end of the string or at a separator. */
  lemma {:induction false} SplitFirstEnds(s: string, sep: char)
    ensures var p := Split(s, sep)[0];
      |p| <= |s| && s[..|p|] == p && sep !in p && (|p| == |s| || s[|p|] == sep)
  {
    if |s| > 0 {
      SplitFirstEnds(s[1..], sep);
      SplitCons(s, sep);
    }
  }

  /** The first part of a split on commas is the text before the first comma. */
  lemma FirstPartBeforeComma(s: string)
    ensures Split(s, ',')[0] == BeforeFirstComma(s)
  {
    var p := Split(s, ',')[0];
    SplitFirstEnds(s, ',');
    var r := IndexOf(s, ",");
    forall k | 0 <= k < |p| ensures !OccursAt(s, ",", k) {
      NoCommaInPrefix(s, p, k);
    }
    if |p| < |s| {
      assert s[|p|..|p| + 1] == [s[|p|]];
      assert OccursAt(s, ",", |p|);
      assert r == |p|;
    } else {
      assert forall k :: !OccursAt(s, ",", k);
      assert r == -1;
    }
  }

  /** A prefix without commas holds no comma occurrence. */
  lemma NoCommaInPrefix(s: string, p: string, k: int)
    requires |p| <= |s| && s[..|p|] == p && ',' !in p && 0 <= k < |p|
    ensures !OccursAt(s, ",", k)
  {
    assert s[k] == p[k];
    assert s[k..k + 1] == [s[k]];
  }

  /**
   * The address is the trimmed first hop of `x-forwarded-for` when that is
   * non-empty, else the trimmed `x-real-ip` when that is non-empty, else
   * `unknown`; a forwarded address holds no comma and no surrounding space.
   */
  lemma ClientIpChoice(forwardedFor: Option<string>, realIp: Option<string>)
    ensures var ip := GetClientIp(forwardedFor, realIp);
      var hop := if forwardedFor.Some? then Trim(BeforeFirstComma(forwardedFor.value)) else "";
      var fromReal := if realIp.Some? then Trim(realIp.value) else "";
      && (hop != "" ==> ip == hop && ',' !in ip && IsTrimmed(ip))
      && (hop == "" && fromReal != "" ==> ip == fromReal && IsTrimmed(ip))
      && (hop == "" && fromReal == "" ==> ip == Unknown)
  {
    if forwardedFor.Some? {
      var s := forwardedFor.value;
      FirstPartBeforeComma(s);
      TrimKeepsChars(Split(s, ',')[0]);
    }
  }
}
