/** `detectBrowser`: an ordered list of substring tests on the user agent. */
module Browser {
  import opened Text

  datatype BrowserName = ChromiumEdge | Chrome | Safari | Firefox | Unknown

  /** The tests in source order; the first that passes decides. */
  function DetectBrowser(ua: string): BrowserName {
    if Contains(ua, "Edg/") then ChromiumEdge
    else if Contains(ua, "Chrome") && !Contains(ua, "Edg") then Chrome
    else if Contains(ua, "Safari") && !Contains(ua, "Chrome") then Safari
    else if Contains(ua, "Firefox") then Firefox
    else Unknown
  }

  /** An occurrence at a known position is found by `includes`. */
  lemma FoundAt(s: string, t: string, i: int)
    requires OccursAt(s, t, i)
    ensures Contains(s, t)
  {
    ContainsIff(s, t);
  }

  /** A string that lacks one of the characters of `t` does not contain `t`. */
  lemma MissingChar(s: string, t: string, k: int)
    requires 0 <= k < |t| && t[k] !in s
    ensures !Contains(s, t)
  {
    forall i | 0 <= i && i + |t| <= |s| ensures !OccursAt(s, t, i) {
      assert s[i..i + |t|][k] == s[i + k];
      assert s[i + k] in s;
    }
    ContainsIff(s, t);
  }

  /** Whoever contains "Edg/" contains "Edg". */
  lemma EdgSlashHasEdg(s: string)
    ensures Contains(s, "Edg/") ==> Contains(s, "Edg")
  {
    ContainsIff(s, "Edg/");
    ContainsIff(s, "Edg");
    if Contains(s, "Edg/") {
      var i :| OccursAt(s, "Edg/", i);
      assert s[i..i + 3] == s[i..i + 4][..3];
      assert OccursAt(s, "Edg", i);
    }
  }

  /** Each answer, stated without the order of the tests: Chrome means
      "Chrome" without any "Edg"; Safari means "Safari" without "Chrome" or
      "Edg/"; Firefox means "Firefox" and none of the earlier answers. */
  lemma DetectBrowserIff(ua: string)
    ensures DetectBrowser(ua) == ChromiumEdge <==> Contains(ua, "Edg/")
    ensures DetectBrowser(ua) == Chrome <==> Contains(ua, "Chrome") && !Contains(ua, "Edg")
    ensures DetectBrowser(ua) == Safari <==>
      Contains(ua, "Safari") && !Contains(ua, "Chrome") && !Contains(ua, "Edg/")
    ensures DetectBrowser(ua) == Firefox <==>
      Contains(ua, "Firefox") && !Contains(ua, "Edg/")
      && !(Contains(ua, "Chrome") && !Contains(ua, "Edg"))
      && !(Contains(ua, "Safari") && !Contains(ua, "Chrome"))
  {
    EdgSlashHasEdg(ua);
  }

  /** A Chromium-based Edge user agent also names Chrome and Safari. */
  lemma EdgeAgent()
    ensures DetectBrowser("Chrome/120.0 Safari/537.36 Edg/120.0") == ChromiumEdge
  {
    FoundAt("Chrome/120.0 Safari/537.36 Edg/120.0", "Edg/", 27);
  }
}
