/** The GDAL command line offered for a scene (lib/generateCommand.ts, also copied verbatim
    into components/SearchResultItem.tsx): each band href is rewritten into a `/vsis3/`
    virtual path and the red, green and blue bands are merged into `<name>.tif`. */
module GdalCommand {
  import opened Wrappers
  import opened JsText
  import opened Catalog

  const CommandPrefix := "AWS_DEFAULT_PROFILE=raster-foundry gdal_merge.py -co COMPRESS=DEFLATE -co PREDICTOR=2 -separate -o "
  const VsiS3 := "/vsis3/"
  const Quote := '\''

  /** The href with its first "http://" and then its first "https://" removed. */
  function StripProtocol(url: string): (r: string)
    ensures forall c :: c in r ==> c in url
    ensures !Contains(url, "http://") && !Contains(url, "https://") ==> r == url
  {
    Replace(Replace(url, "http://", ""), "https://", "")
  }

  /** What precedes the first "." of the host part (the bucket of a
      `<bucket>.s3.<region>.amazonaws.com` host). */
  function HostBucket(host: string): (r: string)
    ensures '.' in host ==> '.' !in r && StartsWith(host, r + ".")
  {
    var k := IndexOf(host, ".");
    assert '.' in host ==> Slice(host, 0, k) == host[..k] && '.' !in host[..k] && host[k] == '.' by {
      if '.' in host {
        IndexOfCharFound(host, '.');
      }
    }
    Slice(host, 0, k)
  }

  /** What follows the first "/" of the host part, that "/" included (the object key). */
  function HostKey(host: string): (r: string)
    ensures |r| <= |host|
    ensures '/' in host ==> |r| > 0 && r[0] == '/' && host[|host| - |r|..] == r
    ensures '/' in host ==> '/' !in host[..|host| - |r|]
  {
    var k := IndexOf(host, "/");
    assert '/' in host ==> SliceFrom(host, k) == host[k..] && '/' !in host[..k] && host[k] == '/' by {
      if '/' in host {
        IndexOfCharFound(host, '/');
      }
    }
    SliceFrom(host, k)
  }

  /** `getVsiPath`: an "s3..." href has its first "s3://" turned into "/vsis3/"; any other
      href is read as an http(s) URL of a bucket host and rewritten to
      "/vsis3/<bucket><key>". */
  function VsiS3Path(url: string): (r: string)
    ensures !StartsWith(url, "s3") ==> StartsWith(r, VsiS3)
    ensures forall c :: c in r ==> c in url || c in VsiS3
  {
    if StartsWith(url, "s3") then Replace(url, "s3://", VsiS3)
    else
      var host := StripProtocol(url);
      assert (VsiS3 + HostBucket(host) + HostKey(host))[..|VsiS3|] == VsiS3;
      VsiS3 + HostBucket(host) + HostKey(host)
  }

  /** An "s3://bucket/key" href keeps bucket and key behind the "/vsis3/" prefix. */
  lemma VsiS3Scheme(path: string)
    ensures VsiS3Path("s3://" + path) == VsiS3 + path
  {
    var url := "s3://" + path;
    assert url[..2] == "s3";
    assert url[0..5] == "s3://";
    IndexOfFirst(url, "s3://", 0);
    ReplaceAt(url, "s3://", VsiS3, 0);
    assert url[5..] == path;
  }

  /** No occurrence of `p` begins inside `a`, and none is in `b`: none is in `a + b`. */
  lemma NotContainedAcross(a: string, b: string, p: string)
    requires forall j :: 0 <= j < |a| ==> !OccursAt(a + b, p, j)
    requires !Contains(b, p)
    ensures !Contains(a + b, p)
  {
    forall j | |a| <= j ensures !OccursAt(a + b, p, j) {
      OccursInSuffix(a, b, p, j);
    }
  }

  lemma StripHttps(rest: string)
    requires !Contains(rest, "http://") && !Contains(rest, "https://")
    ensures StripProtocol("https://" + rest) == rest
  {
    var url := "https://" + rest;
    forall j | 0 <= j < 8 ensures !OccursAt(url, "http://", j) {
      if j == 0 {
        assert url[4] != "http://"[4];
      } else if j + 7 <= |url| {
        assert url[j] != 'h';
      }
    }
    NotContainedAcross("https://", rest, "http://");
    assert url[0..8] == "https://";
    IndexOfFirst(url, "https://", 0);
    ReplaceAt(url, "https://", "", 0);
    assert url[8..] == rest;
  }

  lemma StripHttp(rest: string)
    requires !Contains(rest, "http://") && !Contains(rest, "https://")
    ensures StripProtocol("http://" + rest) == rest
  {
    var url := "http://" + rest;
    assert url[0..7] == "http://";
    IndexOfFirst(url, "http://", 0);
    ReplaceAt(url, "http://", "", 0);
    assert url[7..] == rest;
    assert Replace(url, "http://", "") == rest;
    assert Replace(rest, "https://", "") == rest;
  }

  /** A bucket host "<bucket>.<domain>" followed by a key that starts with "/" becomes
      "<bucket><key>": the domain is dropped. */
  lemma BucketHostParts(bucket: string, domain: string, key: string)
    requires '.' !in bucket && '/' !in bucket && '/' !in domain
    requires |key| > 0 && key[0] == '/'
    ensures HostBucket(bucket + "." + domain + key) == bucket
    ensures HostKey(bucket + "." + domain + key) == key
  {
    var host := bucket + "." + domain + key;
    assert host[..|bucket|] == bucket;
    IndexOfChar(host, '.', |bucket|);
    var k := |bucket| + 1 + |domain|;
    assert host[..k] == bucket + "." + domain;
    assert host[k] == '/';
    IndexOfChar(host, '/', k);
    assert host[k..] == key;
  }

  /** `https://<bucket>.<domain><key>` becomes `/vsis3/<bucket><key>`. */
  lemma VsiS3Https(bucket: string, domain: string, key: string)
    requires '.' !in bucket && '/' !in bucket && '/' !in domain
    requires |key| > 0 && key[0] == '/'
    requires !Contains(bucket + "." + domain + key, "http://")
    requires !Contains(bucket + "." + domain + key, "https://")
    ensures VsiS3Path("https://" + bucket + "." + domain + key) == VsiS3 + bucket + key
  {
    var rest := bucket + "." + domain + key;
    var url := "https://" + rest;
    assert "https://" + bucket + "." + domain + key == url;
    assert !StartsWith(url, "s3") by {
      assert url[..2][0] == 'h';
    }
    StripHttps(rest);
    BucketHostParts(bucket, domain, key);
    assert VsiS3Path(url) == VsiS3 + HostBucket(rest) + HostKey(rest);
  }

  /** `http://<bucket>.<domain><key>` becomes `/vsis3/<bucket><key>`. */
  lemma VsiS3Http(bucket: string, domain: string, key: string)
    requires '.' !in bucket && '/' !in bucket && '/' !in domain
    requires |key| > 0 && key[0] == '/'
    requires !Contains(bucket + "." + domain + key, "http://")
    requires !Contains(bucket + "." + domain + key, "https://")
    ensures VsiS3Path("http://" + bucket + "." + domain + key) == VsiS3 + bucket + key
  {
    var rest := bucket + "." + domain + key;
    var url := "http://" + rest;
    assert "http://" + bucket + "." + domain + key == url;
    assert !StartsWith(url, "s3") by {
      assert url[..2][0] == 'h';
    }
    StripHttp(rest);
    BucketHostParts(bucket, domain, key);
    assert VsiS3Path(url) == VsiS3 + HostBucket(rest) + HostKey(rest);
  }

  /** Without a "." the bucket is the host minus its last character; without a "/" the key
      is the host's last character. A host with neither therefore comes out whole. */
  lemma HostWithoutDotOrSlash(host: string)
    ensures '.' !in host ==> HostBucket(host) == (if host == "" then "" else host[..|host| - 1])
    ensures '/' !in host ==> HostKey(host) == (if host == "" then "" else host[|host| - 1..])
    ensures '.' !in host && '/' !in host ==> HostBucket(host) + HostKey(host) == host
  {
    SliceMinusOne(host);
    if '.' !in host {
      IndexOfCharAbsent(host, '.');
    }
    if '/' !in host {
      IndexOfCharAbsent(host, '/');
    }
  }

  /** `name.toLowerCase().replaceAll(" ", "_")`: every space becomes "_", ASCII capitals
      become small letters, every other character is kept. */
  function NormalizeName(name: string): (r: string)
    ensures |r| == |name|
    ensures forall i :: 0 <= i < |name| && name[i] == ' ' ==> r[i] == '_'
    ensures forall i :: 0 <= i < |name| && 'A' <= name[i] <= 'Z' ==> r[i] == LowerChar(name[i])
    ensures forall i :: 0 <= i < |name| && name[i] != ' ' && !('A' <= name[i] <= 'Z') ==> r[i] == name[i]
  {
    ReplaceAllChar(ToLowerCase(name), ' ', '_')
  }

  /** A normalized name has no spaces and no capitals, so normalizing it again changes
      nothing. */
  lemma NormalizeNameIdempotent(name: string)
    ensures ' ' !in NormalizeName(name)
    ensures forall c :: c in NormalizeName(name) ==> !('A' <= c <= 'Z')
    ensures NormalizeName(NormalizeName(name)) == NormalizeName(name)
  {
    var n := NormalizeName(name);
    assert forall i :: 0 <= i < |n| ==> n[i] != ' ' && !('A' <= n[i] <= 'Z');
  }

  /** Normalizing cannot introduce a quote character. */
  lemma NormalizeNameQuoteFree(name: string)
    requires Quote !in name
    ensures Quote !in NormalizeName(name)
  {
    var n := NormalizeName(name);
    assert forall i :: 0 <= i < |n| ==> n[i] != Quote;
  }

  lemma NormalizeNameExamples()
    ensures NormalizeName("My Output") == "my_output"
    ensures NormalizeName("   ") == "___"
    ensures NormalizeName("output") == "output"
  {
  }

  /** The hrefs of bands B04, B03 and B02 (red, green, blue), read in that order; the
      first band that is missing is the error (the source dereferences it and throws). */
  function BandHrefs(assets: map<string, string>): (r: Result<seq<string>, string>)
    ensures r.Ok? <==> "B04" in assets && "B03" in assets && "B02" in assets
    ensures r.Ok? ==> r.value == [assets["B04"], assets["B03"], assets["B02"]]
    ensures "B04" !in assets ==> r == Err("B04")
    ensures "B04" in assets && "B03" !in assets ==> r == Err("B03")
    ensures "B04" in assets && "B03" in assets && "B02" !in assets ==> r == Err("B02")
  {
    if "B04" !in assets then Err("B04")
    else if "B03" !in assets then Err("B03")
    else if "B02" !in assets then Err("B02")
    else Ok([assets["B04"], assets["B03"], assets["B02"]])
  }

  /** The command template: output file `<stem>.tif`, then the three band paths, each in
      single quotes. Built from quote-free parts, it reads back as those parts. */
  function CommandLine(stem: string, paths: seq<string>): (r: string)
    requires |paths| == 3
    ensures StartsWith(r, CommandPrefix)
    ensures Quote !in stem && Quote !in paths[0] && Quote !in paths[1] && Quote !in paths[2]
            ==> ParseCommand(r) == Some(Parsed(stem, paths))
  {
    var a0 := stem + ".tif ";
    var rest := QuotedArgs(a0, paths);
    var r := CommandPrefix + rest;
    assert r[..|CommandPrefix|] == CommandPrefix;
    assert Quote !in stem && Quote !in paths[0] && Quote !in paths[1] && Quote !in paths[2]
           ==> ParseCommand(r) == Some(Parsed(stem, paths)) by {
      if Quote !in stem && Quote !in paths[0] && Quote !in paths[1] && Quote !in paths[2] {
        assert r[|CommandPrefix|..] == rest;
        assert Quote !in a0;
        assert a0[|a0| - 5..] == ".tif ";
        assert a0[..|a0| - 5] == stem;
        assert [paths[0], paths[1], paths[2]] == paths;
      }
    }
    r
  }

  /** `<head>'<p0>' '<p1>' '<p2>'`; split on quotes it gives back the head, the paths and the
      single spaces between them. */
  function QuotedArgs(head: string, paths: seq<string>): (r: string)
    requires |paths| == 3
    ensures Quote !in head && Quote !in paths[0] && Quote !in paths[1] && Quote !in paths[2]
            ==> Split(r, Quote) == [head, paths[0], " ", paths[1], " ", paths[2], ""]
  {
    var q := Quote;
    var t5 := paths[2] + [q] + "";
    var t4 := " " + [q] + t5;
    var t3 := paths[1] + [q] + t4;
    var t2 := " " + [q] + t3;
    var t1 := paths[0] + [q] + t2;
    var r := head + [q] + t1;
    assert Quote !in head && Quote !in paths[0] && Quote !in paths[1] && Quote !in paths[2]
           ==> Split(r, Quote) == [head, paths[0], " ", paths[1], " ", paths[2], ""] by {
      if Quote !in head && Quote !in paths[0] && Quote !in paths[1] && Quote !in paths[2] {
        SplitAround(head, t1, q);
        SplitAround(paths[0], t2, q);
        SplitAround(" ", t3, q);
        SplitAround(paths[1], t4, q);
        SplitAround(" ", t5, q);
        SplitAround(paths[2], "", q);
        SplitNoSeparator(head, q);
        SplitNoSeparator(paths[0], q);
        SplitNoSeparator(" ", q);
        SplitNoSeparator(paths[1], q);
        SplitNoSeparator(paths[2], q);
        SplitNoSeparator("", q);
      }
    }
    r
  }

  /** The parts of a command line: the output file stem and the band paths in order. */
  datatype Parsed = Parsed(stem: string, paths: seq<string>)

  predicate HasSuffix(s: string, t: string) {
    |t| <= |s| && s[|s| - |t|..] == t
  }

  /** Reads a command line back: the fixed prefix, then `<stem>.tif ` and three quoted
      arguments separated by single spaces. */
  function ParseCommand(cmd: string): Option<Parsed> {
    if !StartsWith(cmd, CommandPrefix) then None
    else
      var parts := Split(cmd[|CommandPrefix|..], Quote);
      if |parts| == 7 && HasSuffix(parts[0], ".tif ") && parts[2] == " " && parts[4] == " " && parts[6] == ""
      then Some(Parsed(parts[0][..|parts[0]| - 5], [parts[1], parts[3], parts[5]]))
      else None
  }

  /** `generateCommand(name, result)`: the command for a scene, or the first of B04, B03,
      B02 that the scene lacks. */
  function GenerateCommand(name: string, assets: map<string, string>): (r: Result<string, string>)
    ensures r.Ok? <==> "B04" in assets && "B03" in assets && "B02" in assets
    ensures r.Err? ==> r.error == BandHrefs(assets).error
    ensures r.Ok? ==> StartsWith(r.value, CommandPrefix)
  {
    match BandHrefs(assets)
    case Err(band) => Err(band)
    case Ok(hrefs) =>
      Ok(CommandLine(NormalizeName(name), [VsiS3Path(hrefs[0]), VsiS3Path(hrefs[1]), VsiS3Path(hrefs[2])]))
  }

  /** The command names `<normalized name>.tif` and then the virtual paths of B04, B03 and
      B02, in that order. */
  lemma GenerateCommandLayout(name: string, assets: map<string, string>)
    requires "B04" in assets && "B03" in assets && "B02" in assets
    requires Quote !in name && Quote !in assets["B04"] && Quote !in assets["B03"] && Quote !in assets["B02"]
    ensures GenerateCommand(name, assets).Ok?
    ensures ParseCommand(GenerateCommand(name, assets).value)
         == Some(Parsed(NormalizeName(name), [VsiS3Path(assets["B04"]), VsiS3Path(assets["B03"]), VsiS3Path(assets["B02"])]))
  {
    NormalizeNameQuoteFree(name);
  }

  /** Only the name and the three band hrefs matter: other assets, and the order of the
      asset map, do not change the command. */
  lemma GenerateCommandDependsOnBandsOnly(name: string, a: map<string, string>, b: map<string, string>)
    requires forall band :: band in ["B04", "B03", "B02"] ==> (band in a <==> band in b)
    requires forall band :: band in ["B04", "B03", "B02"] && band in a ==> a[band] == b[band]
    ensures GenerateCommand(name, a) == GenerateCommand(name, b)
  {
    assert "B04" in ["B04", "B03", "B02"] && "B03" in ["B04", "B03", "B02"] && "B02" in ["B04", "B03", "B02"];
  }

  /** The command for "My Output" over the s3 hrefs `s3://<dir>B0x.tif`: file
      `my_output.tif`, then the red, green and blue bands as `/vsis3/<dir>B0x.tif`. */
  lemma GenerateCommandS3Example(dir: string, assets: map<string, string>)
    requires "B04" in assets && assets["B04"] == "s3://" + dir + "B04.tif"
    requires "B03" in assets && assets["B03"] == "s3://" + dir + "B03.tif"
    requires "B02" in assets && assets["B02"] == "s3://" + dir + "B02.tif"
    ensures GenerateCommand("My Output", assets)
         == Ok(CommandLine("my_output", [VsiS3 + dir + "B04.tif", VsiS3 + dir + "B03.tif", VsiS3 + dir + "B02.tif"]))
  {
    S3Band(dir, "B04.tif");
    S3Band(dir, "B03.tif");
    S3Band(dir, "B02.tif");
    NormalizeNameExamples();
  }

  lemma S3Band(dir: string, file: string)
    ensures VsiS3Path("s3://" + dir + file) == VsiS3 + dir + file
  {
    VsiS3Scheme(dir + file);
    assert "s3://" + (dir + file) == "s3://" + dir + file;
    assert VsiS3 + (dir + file) == VsiS3 + dir + file;
  }
}
