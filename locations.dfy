/** Where the command-line tool reads its source image from and writes its
    result to: a Google Cloud Storage object named by a "gs://bucket/object"
    url, or a local file. Only the parsing and the choice between the two are
    modelled; opening, creating and closing are I/O. */
module Locations {

  datatype Result<T> = Ok(value: T) | Err(msg: string)

  /** The prefix that marks a Cloud Storage location. */
  const GsPrefix: string := "gs://"

  /** The index of the first occurrence of ch in s, or -1 when there is none
      (strings.Index for a one-character separator). */
  function IndexOf(s: string, ch: char): (i: int)
    ensures -1 <= i < |s|
    ensures i == -1 <==> ch !in s
    ensures 0 <= i ==> s[i] == ch && ch !in s[..i]
  {
    if |s| == 0 then -1
    else if s[0] == ch then 0
    else
      var k := IndexOf(s[1..], ch);
      assert k >= 0 ==> s[..k + 1] == [s[0]] + s[1..][..k];
      if k < 0 then -1 else k + 1
  }

  /** The error text for a url that cannot be split. */
  function MalformedUrl(url: string): string {
    "malformed Google Storage url " + url
  }

  /** Splits a storage url into bucket and object name. The first five
      characters are dropped unchecked (the caller has matched "gs://"); the
      bucket runs up to the first '/', and the object is the rest, slash
      included. The second test is the source's guard against an empty
      object; it never fires because the index found is always below the
      length. */
  function SplitGsUrl(url: string): (r: Result<(string, string)>)
    requires |url| >= 5
    ensures r.Ok? ==> r.value.0 + r.value.1 == url[5..]
    ensures r.Ok? ==> |r.value.0| > 0 && '/' !in r.value.0
    ensures r.Ok? ==> |r.value.1| > 0 && r.value.1[0] == '/'
    ensures r.Err? <==> '/' !in url[5..] || url[5..][0] == '/'
    ensures r.Err? ==> r.msg == MalformedUrl(url)
  {
    var rem := url[5..];
    var b := IndexOf(rem, '/');
    if b <= 0 then Err(MalformedUrl(url))
    else if |rem| == b then Err(MalformedUrl(url))
    else Ok((rem[..b], rem[b..]))
  }

  /** The guard |rem| == b in SplitGsUrl is dead: whenever the first test
      passes, the slash found lies strictly inside the remainder. */
  lemma SplitLengthCheckUnreachable(url: string)
    requires |url| >= 5
    ensures IndexOf(url[5..], '/') > 0 ==> IndexOf(url[5..], '/') < |url[5..]|
  {
  }

  /** Consequently a url ending in the bucket's slash is accepted, with the
      bare "/" as object name. */
  lemma TrailingSlashAccepted()
    ensures SplitGsUrl("gs://bucket/") == Ok(("bucket", "/"))
  {
    var rem := "gs://bucket/"[5..];
    assert rem == "bucket/";
    assert rem[6] == '/' && '/' !in rem[..6] by {
      assert rem[..6] == "bucket";
    }
    IndexOfFirst(rem, '/', 6);
  }

  /** The split the length guard evidently means to make: as SplitGsUrl,
      but the guard compares the length with the index just past the
      slash, so a url whose object would be the bare bucket slash is
      rejected as well. */
  function SplitGsUrlStrict(url: string): (r: Result<(string, string)>)
    requires |url| >= 5
    ensures r.Ok? ==> r.value.0 + r.value.1 == url[5..]
    ensures r.Ok? ==> |r.value.0| > 0 && '/' !in r.value.0
    ensures r.Ok? ==> |r.value.1| > 1 && r.value.1[0] == '/'
    ensures r.Err? ==> r.msg == MalformedUrl(url)
  {
    var rem := url[5..];
    var b := IndexOf(rem, '/');
    if b <= 0 then Err(MalformedUrl(url))
    else if |rem| == b + 1 then Err(MalformedUrl(url))
    else Ok((rem[..b], rem[b..]))
  }

  /** The corrected split differs from SplitGsUrl exactly on the urls whose
      object would be "/": those it rejects, all others it splits alike. */
  lemma StrictSplitAgrees(url: string)
    requires |url| >= 5
    ensures SplitGsUrl(url).Ok? && SplitGsUrl(url).value.1 == "/" ==> SplitGsUrlStrict(url) == Err(MalformedUrl(url))
    ensures !(SplitGsUrl(url).Ok? && SplitGsUrl(url).value.1 == "/") ==> SplitGsUrlStrict(url) == SplitGsUrl(url)
  {
    var rem := url[5..];
    var b := IndexOf(rem, '/');
    if b > 0 && |rem| == b + 1 {
      assert rem[b..] == "/";
    }
  }

  /** The corrected split rejects a url that ends in the bucket's slash. */
  lemma StrictSplitRejectsTrailingSlash()
    ensures SplitGsUrlStrict("gs://bucket/") == Err(MalformedUrl("gs://bucket/"))
  {
    TrailingSlashAccepted();
    StrictSplitAgrees("gs://bucket/");
  }

  /** The corrected split still gives back every bucket and every object
      longer than the slash alone. */
  lemma StrictSplitJoin(bucket: string, obj: string)
    requires |bucket| > 0 && '/' !in bucket
    requires |obj| > 1 && obj[0] == '/'
    ensures SplitGsUrlStrict(JoinGsUrl(bucket, obj)) == Ok((bucket, obj))
  {
    SplitJoin(bucket, obj);
    StrictSplitAgrees(JoinGsUrl(bucket, obj));
  }

  /** An index holding ch with no ch before it is the one IndexOf finds. */
  lemma IndexOfFirst(s: string, ch: char, k: nat)
    requires k < |s| && s[k] == ch && ch !in s[..k]
    ensures IndexOf(s, ch) == k
  {
    assert forall j :: 0 <= j < k ==> s[..k][j] == s[j];
  }

  /** The storage url of an object in a bucket. */
  function JoinGsUrl(bucket: string, obj: string): string {
    GsPrefix + bucket + obj
  }

  /** Splitting a joined url gives back the bucket and the object, for every
      non-empty bucket without a slash and every object starting with one. */
  lemma {:induction false} SplitJoin(bucket: string, obj: string)
    requires |bucket| > 0 && '/' !in bucket
    requires |obj| > 0 && obj[0] == '/'
    ensures SplitGsUrl(JoinGsUrl(bucket, obj)) == Ok((bucket, obj))
  {
    var url := JoinGsUrl(bucket, obj);
    var rem := url[5..];
    assert rem == bucket + obj;
    assert rem[..|bucket|] == bucket;
    assert rem[|bucket|..] == obj;
    IndexOfFirst(rem, '/', |bucket|);
  }

  /** A url with the "gs://" prefix whose remainder is bucket + obj is their
      join. */
  lemma JoinOfRemainder(url: string, bucket: string, obj: string)
    requires |url| >= 5 && url[..5] == GsPrefix
    requires bucket + obj == url[5..]
    ensures JoinGsUrl(bucket, obj) == url
  {
    calc {
      JoinGsUrl(bucket, obj);
      GsPrefix + (bucket + obj);
      url[..5] + url[5..];
      url;
    }
  }

  /** Conversely, a "gs://" url that splits is the join of its parts. */
  lemma JoinSplit(url: string)
    requires |url| >= 5 && url[..5] == GsPrefix
    requires SplitGsUrl(url).Ok?
    ensures JoinGsUrl(SplitGsUrl(url).value.0, SplitGsUrl(url).value.1) == url
  {
    var parts := SplitGsUrl(url).value;
    JoinOfRemainder(url, parts.0, parts.1);
  }

  /** Where a reader or writer goes. */
  datatype Location = Local(path: string) | Gs(bucket: string, obj: string)

  /** The dispatch of getReader and getWriter: a name whose first five
      characters are "gs://" is split into bucket and object, and a split
      error is returned as it is, before any storage client is made; any
      other name is a local file path, used unchanged. */
  function Locate(name: string): (r: Result<Location>)
    requires |name| >= 5
    ensures r.Ok? && r.value.Local? <==> name[..5] != GsPrefix
    ensures r.Ok? && r.value.Local? ==> r.value.path == name
    ensures r.Ok? && r.value.Gs? ==>
              name == JoinGsUrl(r.value.bucket, r.value.obj)
              && |r.value.bucket| > 0 && '/' !in r.value.bucket
              && |r.value.obj| > 0 && r.value.obj[0] == '/'
    ensures r.Err? <==> name[..5] == GsPrefix && ('/' !in name[5..] || name[5..][0] == '/')
    ensures r.Err? ==> r.msg == MalformedUrl(name)
  {
    if name[..5] == GsPrefix then
      match SplitGsUrl(name)
      case Ok((bucket, obj)) =>
        JoinSplit(name);
        Ok(Gs(bucket, obj))
      case Err(msg) => Err(msg)
    else Ok(Local(name))
  }

  /** Every bucket and object that can be named is reached: Locate of their
      url picks exactly that object. */
  lemma LocateJoin(bucket: string, obj: string)
    requires |bucket| > 0 && '/' !in bucket
    requires |obj| > 0 && obj[0] == '/'
    ensures Locate(JoinGsUrl(bucket, obj)) == Ok(Gs(bucket, obj))
  {
    var url := JoinGsUrl(bucket, obj);
    assert url == GsPrefix + (bucket + obj);
    assert url[..5] == GsPrefix;
    SplitJoin(bucket, obj);
    assert SplitGsUrl(url) == Ok((bucket, obj));
  }
}
