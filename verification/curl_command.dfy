/** The later variant of the command generator kept in pages/index.tsx: s3 hrefs are
    rewritten as before, http(s) hrefs are passed through GDAL's `/vsicurl/` handler instead
    of being mapped onto a bucket. The command template is the same. */
module CurlCommand {
  import opened Wrappers
  import opened JsText
  import opened GdalCommand

  const VsiCurl := "/vsicurl/"

  /** `getVsiPath` of pages/index.tsx: "s3..." hrefs as in the bucket convention; otherwise
      the first "http://" and then the first "https://" each become "/vsicurl/". */
  function VsiCurlPath(url: string): (r: string)
    ensures forall c :: c in r ==> c in url || c in VsiS3 || c in VsiCurl
  {
    if StartsWith(url, "s3") then Replace(url, "s3://", VsiS3)
    else Replace(Replace(url, "http://", VsiCurl), "https://", VsiCurl)
  }

  /** Both conventions agree on s3 hrefs. */
  lemma CurlAgreesOnS3(url: string)
    requires StartsWith(url, "s3")
    ensures VsiCurlPath(url) == VsiS3Path(url)
  {
  }

  /** `https://<rest>` becomes `/vsicurl/<rest>`. */
  lemma VsiCurlHttps(rest: string)
    requires !Contains(rest, "http://") && !Contains(rest, "https://")
    ensures VsiCurlPath("https://" + rest) == VsiCurl + rest
  {
    var url := "https://" + rest;
    assert url[..2][0] == 'h';
    forall j | 0 <= j < 8 ensures !OccursAt(url, "http://", j) {
      if j == 0 {
        assert url[4] != "http://"[4];
      } else if j + 7 <= |url| {
        assert url[j] != 'h';
      }
    }
    NotContainedAcross("https://", rest, "http://");
    assert Replace(url, "http://", VsiCurl) == url;
    assert url[0..8] == "https://";
    IndexOfFirst(url, "https://", 0);
    ReplaceAt(url, "https://", VsiCurl, 0);
    assert url[8..] == rest;
  }

  lemma NoHttpsAfterVsiCurl(rest: string)
    requires !Contains(rest, "https://")
    ensures Replace(VsiCurl + rest, "https://", VsiCurl) == VsiCurl + rest
  {
    assert "https://"[0] !in VsiCurl;
    NoOccurrenceInPrefix(VsiCurl, rest, "https://");
    NotContainedAcross(VsiCurl, rest, "https://");
  }

  /** `http://<rest>` becomes `/vsicurl/<rest>`; the inserted "/vsicurl/" holds no "h", so
      the second replacement finds nothing. */
  lemma VsiCurlHttp(rest: string)
    requires !Contains(rest, "http://") && !Contains(rest, "https://")
    ensures VsiCurlPath("http://" + rest) == VsiCurl + rest
  {
    var url := "http://" + rest;
    assert url[..2][0] == 'h';
    assert url[0..7] == "http://";
    IndexOfFirst(url, "http://", 0);
    ReplaceAt(url, "http://", VsiCurl, 0);
    assert url[7..] == rest;
    assert Replace(url, "http://", VsiCurl) == VsiCurl + rest;
    NoHttpsAfterVsiCurl(rest);
  }

  /** `generateCommand` of pages/index.tsx: the same template over `/vsicurl/` paths. */
  function GenerateCurlCommand(name: string, assets: map<string, string>): (r: Result<string, string>)
    ensures r.Ok? <==> "B04" in assets && "B03" in assets && "B02" in assets
    ensures r.Err? ==> r.error == BandHrefs(assets).error
    ensures r.Ok? ==> StartsWith(r.value, CommandPrefix)
  {
    match BandHrefs(assets)
    case Err(band) => Err(band)
    case Ok(hrefs) =>
      Ok(CommandLine(NormalizeName(name), [VsiCurlPath(hrefs[0]), VsiCurlPath(hrefs[1]), VsiCurlPath(hrefs[2])]))
  }

  /** The command names `<normalized name>.tif` and then the paths of B04, B03 and B02, in
      that order. */
  lemma GenerateCurlCommandLayout(name: string, assets: map<string, string>)
    requires "B04" in assets && "B03" in assets && "B02" in assets
    requires Quote !in name && Quote !in assets["B04"] && Quote !in assets["B03"] && Quote !in assets["B02"]
    ensures GenerateCurlCommand(name, assets).Ok?
    ensures ParseCommand(GenerateCurlCommand(name, assets).value)
         == Some(Parsed(NormalizeName(name), [VsiCurlPath(assets["B04"]), VsiCurlPath(assets["B03"]), VsiCurlPath(assets["B02"])]))
  {
    NormalizeNameQuoteFree(name);
  }

  /** On s3 hrefs the two generators produce the same command. */
  lemma CurlCommandAgreesOnS3(name: string, assets: map<string, string>)
    requires forall band :: band in assets ==> StartsWith(assets[band], "s3")
    ensures GenerateCurlCommand(name, assets) == GenerateCommand(name, assets)
  {
  }
}
