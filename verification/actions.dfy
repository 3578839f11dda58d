/**
 What the content script does once the background has returned a password: it
 builds the URL to open, and it spends one of the user's points.
 */
module Actions {
  import opened Base

  /** How a link is opened: directly, with the password in the query string, or
      through the injected autofill script, which is handed the password separately */
  datatype Opening = Direct(target: string) | Autofill(target: string, password: string)

  /** The platforms whose share pages read a `pwd` query parameter */
  predicate TakesPwdParam(url: string) {
    || Contains(url, "pan.baidu.com/share/init")
    || Contains(url, "alipan.com/s/") || Contains(url, "aliyundrive.com/s/")
    || Contains(url, "123pan.com/s/") || Contains(url, "123684.com/s/")
  }

  /** `url + separator + "pwd=" + password`, where the separator is `&` when the url
      already has a query string and `?` otherwise */
  function WithPwdParam(url: string, password: string): (r: string)
    ensures |r| == |url| + 5 + |password|
    ensures r[..|url|] == url
    ensures r[|url|] == (if Contains(url, "?") then '&' else '?')
    ensures r[|url| + 1..|url| + 5] == "pwd="
    ensures r[|url| + 5..] == password
  {
    var separator := if Contains(url, "?") then "&" else "?";
    url + separator + "pwd=" + password
  }

  /** `openNetDiskWithPassword(url, password)`: a baidu init, aliyun or 123pan url
      without `pwd=` is opened with the password appended; anything else goes to the
      autofill script unchanged */
  function OpenNetDiskWithPassword(url: string, password: string): (r: Opening)
    ensures r.Direct? <==> TakesPwdParam(url) && !Contains(url, "pwd=")
    ensures r.Direct? ==> r.target == WithPwdParam(url, password)
    ensures r.Autofill? ==> r == Autofill(url, password)
  {
    if Contains(url, "pan.baidu.com/share/init") && !Contains(url, "pwd=") then
      Direct(WithPwdParam(url, password))
    else if (Contains(url, "alipan.com/s/") || Contains(url, "aliyundrive.com/s/")) && !Contains(url, "pwd=") then
      Direct(WithPwdParam(url, password))
    else if (Contains(url, "123pan.com/s/") || Contains(url, "123684.com/s/")) && !Contains(url, "pwd=") then
      Direct(WithPwdParam(url, password))
    else
      Autofill(url, password)
  }

  /** Appending to a url that has no `pwd=` puts the first `pwd=` right after the separator */
  lemma PwdParamFirst(url: string, password: string)
    requires !Contains(url, "pwd=")
    ensures IndexOf(WithPwdParam(url, password), "pwd=") == Some(|url| + 1)
  {
    var t := WithPwdParam(url, password);
    var i := |url| + 1;
    assert OccursAt("pwd=", t, i) by {
      assert t[i..i + 4] == "pwd=";
    }
    forall j | 0 <= j < i
      ensures !OccursAt("pwd=", t, j)
    {
      if j + 4 <= |url| {
        assert t[j..j + 4] == url[j..j + 4];
        assert !OccursAt("pwd=", url, j);
      } else {
        // a match here would straddle the end of `url`, where the separator sits
        var k := |url| - j;
        assert t[j..j + 4][k] == t[|url|];
      }
    }
    IndexOfIsFirst(t, "pwd=", i);
  }

  /** `indexOf` finds the first occurrence */
  lemma IndexOfIsFirst(s: string, t: string, i: nat)
    requires OccursAt(t, s, i)
    requires forall j :: 0 <= j < i ==> !OccursAt(t, s, j)
    ensures IndexOf(s, t) == Some(i)
  {
  }

  /** The password can be read back from the opened url: it is exactly what follows
      the first `pwd=`, which is the one just appended */
  lemma DirectCarriesPassword(url: string, password: string)
    requires OpenNetDiskWithPassword(url, password).Direct?
    ensures var t := OpenNetDiskWithPassword(url, password).target;
      && IndexOf(t, "pwd=") == Some(|url| + 1)
      && t[|url| + 5..] == password
  {
    PwdParamFirst(url, password);
  }

  /** Opening the opened url again does not append a second password */
  lemma DirectNotReapplied(url: string, password: string, other: string)
    requires OpenNetDiskWithPassword(url, password).Direct?
    ensures OpenNetDiskWithPassword(OpenNetDiskWithPassword(url, password).target, other).Autofill?
  {
    DirectCarriesPassword(url, password);
  }

  // ---------------------------------------------------------------------------
  // Points
  // ---------------------------------------------------------------------------

  /** `consumePoints()`: the displayed balance drops by one, but not below 0 */
  function ConsumePoints(points: int): (r: int)
    ensures r >= 0
    ensures points > 0 ==> r == points - 1
    ensures points <= 0 ==> r == 0
  {
    if points - 1 < 0 then 0 else points - 1
  }

  /** The balance after `n` consumptions */
  function ConsumeTimes(points: int, n: nat): int {
    if n == 0 then points else ConsumePoints(ConsumeTimes(points, n - 1))
  }

  /** `n` consumptions take `n` points, clamped at 0 */
  lemma {:induction false} ConsumeTimesClamp(points: int, n: nat)
    requires n > 0
    ensures ConsumeTimes(points, n) == if points - n < 0 then 0 else points - n
  {
    if n > 1 {
      ConsumeTimesClamp(points, n - 1);
    }
  }
}
