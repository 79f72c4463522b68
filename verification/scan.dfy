/** The heading scan of generate_os_versions.py: walk the page's articles in
    document order, take the iPadOS version from the first heading naming
    iPadOS, and the macOS version from the first heading naming macOS that
    the iPadOS branch does not take.

    The HTML library is not modelled: the scan receives, per `<article>`,
    the text of the first `h2` element inside it, or `None` when the article
    has none. A later `h2` in the same article is never read. */
module Scan {
  import opened Outcomes
  import opened Text

  const IpadName := "iPadOS"
  const MacName := "macOS"

  /** The pair `(ipad_version, mac_version)` the scan accumulates. */
  datatype Versions = Versions(ipad: Option<string>, mac: Option<string>)

  /** The only exception the scan can raise: `text.split()[1]` on a heading
      with fewer than two whitespace-separated fields. */
  datatype ScanError = IndexError

  /** Both variables start as `None`. */
  const Start := Versions(None, None)

  /** Python truthiness of a version variable: `None` and `""` are false. */
  predicate Truthy(o: Option<string>) {
    o.Some? && |o.value| > 0
  }

  /** The loop's exit test: both versions found. */
  predicate Done(v: Versions) {
    Truthy(v.ipad) && Truthy(v.mac)
  }

  /** Every version found so far is a single whitespace-free field. */
  predicate Clean(v: Versions) {
    (v.ipad.Some? ==> IsToken(v.ipad.value))
    && (v.mac.Some? ==> IsToken(v.mac.value))
  }

  /** The fields of an article's heading; an article without one has none. */
  function Tokens(h: Option<string>): seq<string> {
    if h.Some? then Split(h.value) else []
  }

  /** `text.split()[1]`, raising `IndexError` on a one-field heading. */
  function SecondToken(text: string): (r: Result<string, ScanError>)
    ensures r.Err? <==> |Split(text)| < 2
    ensures r.Ok? ==> IsToken(r.value)
  {
    var ws := Split(text);
    if |ws| < 2 then Err(IndexError) else Ok(ws[1])
  }

  /** One pass of the loop body over one article. */
  function Step(v: Versions, heading: Option<string>): (r: Result<Versions, ScanError>)
    ensures heading.None? ==> r == Ok(v)
    ensures Done(v) ==> r == Ok(v)
    ensures r.Ok? ==> r.value.ipad == v.ipad || (!Truthy(v.ipad) && r.value.mac == v.mac)
    ensures r.Ok? ==> r.value.mac == v.mac || (!Truthy(v.mac) && r.value.ipad == v.ipad)
    ensures Clean(v) && r.Ok? ==> Clean(r.value)
  {
    match heading
    case None => Ok(v)
    case Some(text) =>
      if Contains(text, IpadName) && !Truthy(v.ipad) then
        match SecondToken(text)
        case Ok(w) => Ok(v.(ipad := Some(w)))
        case Err(e) => Err(e)
      else if Contains(text, MacName) && !Truthy(v.mac) then
        match SecondToken(text)
        case Ok(w) => Ok(v.(mac := Some(w)))
        case Err(e) => Err(e)
      else
        Ok(v)
  }

  /** The scan over every article, without the early exit: the reference
      the loop is proved against. Defined on prefixes, so `Run(hs[..i])` is
      the state after the first `i` articles. Every version it reports is a
      single non-empty field without whitespace. */
  function Run(hs: seq<Option<string>>): (r: Result<Versions, ScanError>)
    ensures r.Ok? ==> Clean(r.value)
    decreases |hs|
  {
    if |hs| == 0 then Ok(Start)
    else
      match Run(hs[..|hs| - 1])
      case Err(e) => Err(e)
      case Ok(v) => Step(v, hs[|hs| - 1])
  }

  lemma {:induction false} RunSnoc(hs: seq<Option<string>>, n: nat)
    requires n < |hs|
    ensures Run(hs[..n + 1]) == (match Run(hs[..n])
                                 case Err(e) => Err(e)
                                 case Ok(v) => Step(v, hs[n]))
  {
    assert hs[..n + 1][..n] == hs[..n];
  }

  /** On every state the scan reaches, Python truthiness of a version
      variable is the same as "not `None`": a found version is never `""`. */
  lemma {:induction false} TruthyMeansFound(hs: seq<Option<string>>)
    ensures Run(hs).Ok? ==> (Truthy(Run(hs).value.ipad) <==> Run(hs).value.ipad.Some?)
    ensures Run(hs).Ok? ==> (Truthy(Run(hs).value.mac) <==> Run(hs).value.mac.Some?)
  {
  }

  // ---------------------------------------------------------------------
  // Which heading each variable is taken from

  /** The heading `h` exists and its text contains `name`. */
  predicate Mentions(h: Option<string>, name: string) {
    h.Some? && Contains(h.value, name)
  }

  /** The `if` branch takes article `j`: the first one mentioning iPadOS. */
  predicate IpadTakes(hs: seq<Option<string>>, j: nat) {
    j < |hs| && Mentions(hs[j], IpadName)
    && forall i :: 0 <= i < j ==> !Mentions(hs[i], IpadName)
  }

  /** The `elif` branch takes article `j`: the first one mentioning macOS
      that the `if` branch does not take. */
  predicate MacTakes(hs: seq<Option<string>>, j: nat) {
    j < |hs| && Mentions(hs[j], MacName) && !IpadTakes(hs, j)
    && forall i :: 0 <= i < j ==> !(Mentions(hs[i], MacName) && !IpadTakes(hs, i))
  }

  /** Article `j` mentions `name` and is not the one excluded by `taken`. */
  predicate Claimable(hs: seq<Option<string>>, name: string, taken: Option<nat>, j: nat) {
    j < |hs| && Mentions(hs[j], name) && taken != Some(j)
  }

  /** The first claimable article at or after `i`. */
  function FirstClaim(hs: seq<Option<string>>, name: string, taken: Option<nat>, i: nat): (r: Option<nat>)
    requires i <= |hs|
    ensures r.Some? ==> i <= r.value < |hs| && Claimable(hs, name, taken, r.value)
    ensures r.Some? ==> forall j :: i <= j < r.value ==> !Claimable(hs, name, taken, j)
    ensures r.None? ==> forall j :: i <= j < |hs| ==> !Claimable(hs, name, taken, j)
    decreases |hs| - i
  {
    if i == |hs| then None
    else if Claimable(hs, name, taken, i) then Some(i)
    else FirstClaim(hs, name, taken, i + 1)
  }

  /** The article the `if` branch takes, if any. */
  function IpadClaim(hs: seq<Option<string>>): Option<nat> {
    FirstClaim(hs, IpadName, None, 0)
  }

  /** The article the `elif` branch takes, if any. */
  function MacClaim(hs: seq<Option<string>>): Option<nat> {
    FirstClaim(hs, MacName, IpadClaim(hs), 0)
  }

  lemma {:induction false} IpadClaimIsTaker(hs: seq<Option<string>>)
    ensures forall j: nat :: IpadTakes(hs, j) <==> IpadClaim(hs) == Some(j)
  {
    var r := IpadClaim(hs);
    forall j: nat
      ensures IpadTakes(hs, j) <==> r == Some(j)
    {
      if r == Some(j) {
        forall i | 0 <= i < j
          ensures !Mentions(hs[i], IpadName)
        {
          assert !Claimable(hs, IpadName, None, i);
        }
      }
      if IpadTakes(hs, j) {
        assert Claimable(hs, IpadName, None, j);
      }
    }
  }

  lemma {:induction false} MacClaimIsTaker(hs: seq<Option<string>>)
    ensures forall j: nat :: MacTakes(hs, j) <==> MacClaim(hs) == Some(j)
  {
    IpadClaimIsTaker(hs);
    var a := IpadClaim(hs);
    var r := MacClaim(hs);
    forall j: nat
      ensures MacTakes(hs, j) <==> r == Some(j)
    {
      if r == Some(j) {
        forall i | 0 <= i < j
          ensures !(Mentions(hs[i], MacName) && !IpadTakes(hs, i))
        {
          assert !Claimable(hs, MacName, a, i);
        }
      }
      if MacTakes(hs, j) {
        assert Claimable(hs, MacName, a, j);
      }
    }
  }

  /** A taken article that the scan has passed (index below `n`) has at
      least two fields. */
  predicate Readable(hs: seq<Option<string>>, c: Option<nat>, n: nat) {
    c.None? || n <= c.value || (c.value < |hs| && |Tokens(hs[c.value])| >= 2)
  }

  /** The version read from a taken article, once the scan has passed it. */
  function Pick(hs: seq<Option<string>>, c: Option<nat>, n: nat): Option<string> {
    if c.Some? && c.value < n && c.value < |hs| && |Tokens(hs[c.value])| >= 2
    then Some(Tokens(hs[c.value])[1])
    else None
  }

  /** What the scan holds after the first `n` articles, read off from which
      articles the two branches take. */
  function Expected(hs: seq<Option<string>>, n: nat): Result<Versions, ScanError> {
    var a := IpadClaim(hs);
    var b := MacClaim(hs);
    if Readable(hs, a, n) && Readable(hs, b, n)
    then Ok(Versions(Pick(hs, a, n), Pick(hs, b, n)))
    else Err(IndexError)
  }

  /** The `if` branch takes article `m` exactly when it mentions iPadOS and
      no earlier article took that branch. */
  lemma {:induction false} IpadTakesAt(hs: seq<Option<string>>, m: nat)
    requires m < |hs|
    ensures IpadTakes(hs, m) <==> Mentions(hs[m], IpadName) && !(IpadClaim(hs).Some? && IpadClaim(hs).value < m)
  {
    IpadClaimIsTaker(hs);
    var a := IpadClaim(hs);
    if Mentions(hs[m], IpadName) && !IpadTakes(hs, m) {
      var i :| 0 <= i < m && Mentions(hs[i], IpadName);
      assert Claimable(hs, IpadName, None, i);
    }
  }

  /** The `elif` branch takes article `m` exactly when it mentions macOS, the
      `if` branch does not take it, and no earlier article took the `elif`. */
  lemma {:induction false} MacTakesAt(hs: seq<Option<string>>, m: nat)
    requires m < |hs|
    ensures MacTakes(hs, m) <==> Mentions(hs[m], MacName) && IpadClaim(hs) != Some(m)
                                 && !(MacClaim(hs).Some? && MacClaim(hs).value < m)
  {
    IpadClaimIsTaker(hs);
    MacClaimIsTaker(hs);
    var a := IpadClaim(hs);
    if Mentions(hs[m], MacName) && a != Some(m) && !MacTakes(hs, m) {
      var i :| 0 <= i < m && Mentions(hs[i], MacName) && !IpadTakes(hs, i);
      assert Claimable(hs, MacName, a, i);
    }
  }

  /** A version picked from a passed, readable article is truthy. */
  lemma {:induction false} PickTruthy(hs: seq<Option<string>>, c: Option<nat>, n: nat)
    requires Readable(hs, c, n)
    ensures Truthy(Pick(hs, c, n)) <==> c.Some? && c.value < n
  {
  }

  /** The first `n` articles leave the scan in the state `Expected` reads
      off the taken articles: an `IndexError` if a taken article among them
      has a single field, and otherwise the second field of each taken
      article among them. */
  lemma {:induction false} RunMatchesClaims(hs: seq<Option<string>>, n: nat)
    requires n <= |hs|
    ensures Run(hs[..n]) == Expected(hs, n)
  {
    if n > 0 {
      var m := n - 1;
      RunMatchesClaims(hs, m);
      RunSnoc(hs, m);
      IpadTakesAt(hs, m);
      MacTakesAt(hs, m);
      IpadClaimIsTaker(hs);
      MacClaimIsTaker(hs);
      var a := IpadClaim(hs);
      var b := MacClaim(hs);
      if Run(hs[..m]).Ok? {
        var v := Run(hs[..m]).value;
        PickTruthy(hs, a, m);
        PickTruthy(hs, b, m);
        assert Truthy(v.ipad) <==> a.Some? && a.value < m;
        assert Truthy(v.mac) <==> b.Some? && b.value < m;
      }
    }
  }

  // ---------------------------------------------------------------------
  // Properties of the whole scan

  /** The scan fails exactly when an article one of the branches takes has
      a heading with fewer than two fields. */
  lemma {:induction false} ScanFailsIffTakenHeadingShort(hs: seq<Option<string>>)
    ensures Run(hs).Err? <==>
      exists j: nat :: (IpadTakes(hs, j) || MacTakes(hs, j)) && |Tokens(hs[j])| < 2
  {
    RunMatchesClaims(hs, |hs|);
    assert hs[..|hs|] == hs;
    IpadClaimIsTaker(hs);
    MacClaimIsTaker(hs);
  }

  /** `ipad_version` is the second field of the first heading that mentions
      iPadOS, and stays `None` when no heading does. */
  lemma {:induction false} IpadIsFirstMention(hs: seq<Option<string>>)
    ensures Run(hs).Ok? ==>
      (Run(hs).value.ipad.None? <==> forall j :: 0 <= j < |hs| ==> !Mentions(hs[j], IpadName))
    ensures Run(hs).Ok? && Run(hs).value.ipad.Some? ==>
      exists j: nat :: IpadTakes(hs, j) && |Tokens(hs[j])| >= 2 && Run(hs).value.ipad == Some(Tokens(hs[j])[1])
  {
    RunMatchesClaims(hs, |hs|);
    assert hs[..|hs|] == hs;
    IpadClaimIsTaker(hs);
    var a := IpadClaim(hs);
    if a.None? {
      forall j | 0 <= j < |hs|
        ensures !Mentions(hs[j], IpadName)
      {
        assert !Claimable(hs, IpadName, None, j);
      }
    }
  }

  /** `mac_version` is the second field of the first heading that mentions
      macOS and is not taken by the iPadOS branch; it stays `None` when every
      heading mentioning macOS is the one the iPadOS branch takes. */
  lemma {:induction false} MacIsFirstUnclaimedMention(hs: seq<Option<string>>)
    ensures Run(hs).Ok? ==>
      (Run(hs).value.mac.None? <==>
         forall j :: 0 <= j < |hs| && Mentions(hs[j], MacName) ==> IpadTakes(hs, j))
    ensures Run(hs).Ok? && Run(hs).value.mac.Some? ==>
      exists j: nat :: MacTakes(hs, j) && |Tokens(hs[j])| >= 2 && Run(hs).value.mac == Some(Tokens(hs[j])[1])
  {
    RunMatchesClaims(hs, |hs|);
    assert hs[..|hs|] == hs;
    IpadClaimIsTaker(hs);
    MacClaimIsTaker(hs);
    var b := MacClaim(hs);
    if b.None? {
      forall j | 0 <= j < |hs| && Mentions(hs[j], MacName)
        ensures IpadTakes(hs, j)
      {
        assert !Claimable(hs, MacName, IpadClaim(hs), j);
      }
    }
  }

  /** A heading naming both systems goes to iPadOS while iPadOS is still
      unfound, and otherwise supplies the macOS version if that is unfound. */
  lemma {:induction false} BothNamesHeading(hs: seq<Option<string>>, j: nat)
    requires j < |hs| && Mentions(hs[j], IpadName) && Mentions(hs[j], MacName)
    requires Run(hs[..j + 1]).Ok?
    ensures Run(hs[..j]).Ok?
    ensures Run(hs[..j]).value.ipad.None? || Run(hs[..j]).value.mac.None? ==> |Tokens(hs[j])| >= 2
    ensures Run(hs[..j]).value.ipad.None? ==>
      Run(hs[..j + 1]) == Ok(Run(hs[..j]).value.(ipad := Some(Tokens(hs[j])[1])))
    ensures Run(hs[..j]).value.ipad.Some? && Run(hs[..j]).value.mac.None? ==>
      Run(hs[..j + 1]) == Ok(Run(hs[..j]).value.(mac := Some(Tokens(hs[j])[1])))
  {
    RunSnoc(hs, j);
  }

  /** Once a variable is set it keeps its value: if the scan gets through
      the first `n` articles, it got through the first `m <= n`, and every
      version found by then is unchanged at `n`. */
  lemma {:induction false} NeverOverwritten(hs: seq<Option<string>>, m: nat, n: nat)
    requires m <= n <= |hs|
    ensures Run(hs[..n]).Ok? ==> Run(hs[..m]).Ok?
    ensures Run(hs[..n]).Ok? && Run(hs[..m]).value.ipad.Some? ==>
      Run(hs[..n]).value.ipad == Run(hs[..m]).value.ipad
    ensures Run(hs[..n]).Ok? && Run(hs[..m]).value.mac.Some? ==>
      Run(hs[..n]).value.mac == Run(hs[..m]).value.mac
  {
    RunMatchesClaims(hs, m);
    RunMatchesClaims(hs, n);
  }

  /** After both versions are found, later articles change nothing and
      cannot raise: every longer prefix gives the same result. */
  lemma {:induction false} DoneIsFinal(hs: seq<Option<string>>, n: nat, k: nat)
    requires n <= k <= |hs|
    requires Run(hs[..n]).Ok? && Done(Run(hs[..n]).value)
    ensures Run(hs[..k]) == Run(hs[..n])
    decreases k
  {
    if k > n {
      DoneIsFinal(hs, n, k - 1);
      RunSnoc(hs, k - 1);
    }
  }

  /** Stopping the scan as soon as both are found gives the same result as
      scanning every article. */
  lemma {:induction false} EarlyExitIrrelevant(hs: seq<Option<string>>, n: nat)
    requires n <= |hs|
    requires Run(hs[..n]).Ok? && Done(Run(hs[..n]).value)
    ensures Run(hs) == Run(hs[..n])
  {
    DoneIsFinal(hs, n, |hs|);
    assert hs[..|hs|] == hs;
  }

  /** The articles that have a heading, in their original order. */
  function Headed(hs: seq<Option<string>>): seq<Option<string>>
    decreases |hs|
  {
    if |hs| == 0 then []
    else
      var last := hs[|hs| - 1];
      Headed(hs[..|hs| - 1]) + (if last.Some? then [last] else [])
  }

  /** Articles without a heading contribute nothing: dropping them leaves
      both results, and any failure, unchanged. */
  lemma {:induction false} HeadinglessIrrelevant(hs: seq<Option<string>>)
    ensures Run(Headed(hs)) == Run(hs)
    decreases |hs|
  {
    if |hs| > 0 {
      var init := hs[..|hs| - 1];
      var last := hs[|hs| - 1];
      HeadinglessIrrelevant(init);
      if last.Some? {
        var g := Headed(init) + [last];
        assert g[..|g| - 1] == Headed(init);
      } else {
        assert Headed(hs) == Headed(init);
      }
    }
  }

  // ---------------------------------------------------------------------
  // The loop as written

  /** Lines 19-31 as written: a `for` loop over the articles with the
      `if`/`elif` guards and a `break` once both versions are found. It
      gives exactly the result of the full scan. */
  method ScanArticles(hs: seq<Option<string>>) returns (r: Result<Versions, ScanError>)
    ensures r == Run(hs)
  {
    var ipad: Option<string> := None;
    var mac: Option<string> := None;
    var i := 0;
    while i < |hs|
      invariant 0 <= i <= |hs|
      invariant Run(hs[..i]) == Ok(Versions(ipad, mac))
    {
      RunSnoc(hs, i);
      var heading := hs[i];
      if heading.Some? {
        var text := heading.value;
        if Contains(text, IpadName) && !Truthy(ipad) {
          var ws := Split(text);
          if |ws| < 2 {
            assert Step(Versions(ipad, mac), heading).Err?;
            FailureIsFinal(hs, i + 1);
            return Err(IndexError);
          }
          ipad := Some(ws[1]);
        } else if Contains(text, MacName) && !Truthy(mac) {
          var ws := Split(text);
          if |ws| < 2 {
            assert Step(Versions(ipad, mac), heading).Err?;
            FailureIsFinal(hs, i + 1);
            return Err(IndexError);
          }
          mac := Some(ws[1]);
        }
      }
      i := i + 1;
      if Truthy(ipad) && Truthy(mac) {
        EarlyExitIrrelevant(hs, i);
        break;
      }
    }
    assert hs[..|hs|] == hs;
    r := Ok(Versions(ipad, mac));
  }

  /** A failure is final: every longer prefix fails too. */
  lemma {:induction false} ErrIsFinal(hs: seq<Option<string>>, n: nat, k: nat)
    requires n <= k <= |hs|
    requires Run(hs[..n]).Err?
    ensures Run(hs[..k]) == Err(IndexError)
    decreases k
  {
    if k > n {
      ErrIsFinal(hs, n, k - 1);
      RunSnoc(hs, k - 1);
    } else {
      assert Run(hs[..n]).error.IndexError?;
    }
  }

  /** An `IndexError` part-way through is the result of the whole scan. */
  lemma {:induction false} FailureIsFinal(hs: seq<Option<string>>, n: nat)
    requires n <= |hs|
    requires Run(hs[..n]).Err?
    ensures Run(hs) == Err(IndexError)
  {
    ErrIsFinal(hs, n, |hs|);
    assert hs[..|hs|] == hs;
  }
}
