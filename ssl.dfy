/**
 * The self-signed certificate manager: the `.timestamp` file that records until when the current
 * certificate is valid, the rule that decides whether to regenerate it, the ordered writes of a
 * regeneration and the choice of files a server reads its certificate and key from.
 *
 * The crypto folder is a map from file name to contents; writes to the names in `writeFaults`
 * fail with the given error. The clock and the generated certificate/key pair are supplied by
 * the caller. JavaScript numbers are modelled as unbounded integers.
 */
module Ssl {
  import opened Eav
  import opened JsText

  /** Milliseconds per day, `24*60*60*1000`. */
  const MsPerDay: int := 86400000

  const TimestampFile := ".timestamp"
  const CertFile := "cert.pem"
  const KeyFile := "privatekey.pem"

  /** The configuration fields the manager reads. */
  datatype SslConfig = SslConfig(
    useHttps: bool,
    sourceType: string,
    externalCert: Option<string>,
    lifetimeDays: int)

  /** What `getTimestamp` answers: `undefined` when the file cannot be read, else `parseInt(content)`. */
  datatype Timestamp = Missing | NotANumber | At(ms: int)

  /** A certificate and private key, as PEM text. */
  datatype KeyPair = KeyPair(cert: string, key: string)

  datatype FsError =
    | NoSuchFile(path: string)   // ENOENT
    | InvalidPath                // `readFile(undefined)`: no external certificate path configured
    | WriteFailed(message: string)
    | GenerationFailed(message: string)

  function ReadTimestamp(content: Option<string>): (t: Timestamp)
    ensures t.Missing? <==> content.None?
    ensures content.Some? ==> (t.NotANumber? <==> ParseInt(content.value).NaN?)
    ensures content.Some? && ParseInt(content.value).Int? ==> t == At(ParseInt(content.value).value)
  {
    match content
    case None => Missing
    case Some(text) =>
      match ParseInt(text)
      case NaN => NotANumber
      case Int(v) => At(v)
  }

  /**
   * `shouldRegenerateCert`: only a self-signed source is ever regenerated; then a missing timestamp,
   * or one less than `intervalDays` ahead of `now`, asks for a new certificate. NaN compares false.
   */
  function ShouldRegenerate(sourceType: string, t: Timestamp, now: int, intervalDays: int): (b: bool)
    ensures sourceType != "self-signed" ==> !b
    ensures sourceType == "self-signed" && t.Missing? ==> b
    ensures t.NotANumber? ==> !b
    ensures t.At? ==> (b <==> sourceType == "self-signed" && t.ms - now < intervalDays * MsPerDay)
  {
    if sourceType == "self-signed" then
      match t
      case Missing => true
      case NotANumber => false
      case At(ms) => ms - now < intervalDays * MsPerDay
    else false
  }

  /** The instant `setTimestamp` records: `lifetimeDays` days after `now`. */
  function ValidUntil(now: int, lifetimeDays: int): (v: int)
    ensures v - now == lifetimeDays * MsPerDay
  {
    now + lifetimeDays * MsPerDay
  }

  /** The recorded timestamp reads back as the instant that was written. */
  lemma TimestampRoundTrip(now: int, lifetimeDays: int)
    ensures ReadTimestamp(Some(IntToText(ValidUntil(now, lifetimeDays)))) == At(ValidUntil(now, lifetimeDays))
  {
    ParseIntRoundTrip(ValidUntil(now, lifetimeDays), []);
    assert IntToText(ValidUntil(now, lifetimeDays)) + [] == IntToText(ValidUntil(now, lifetimeDays));
  }

  /**
   * A check made `elapsed` ms after a regeneration with the one-day interval asks for another
   * certificate exactly when less than a day of the lifetime remains.
   */
  lemma CheckAfterRegeneration(now: int, elapsed: int, lifetimeDays: int)
    ensures ShouldRegenerate("self-signed", ReadTimestamp(Some(IntToText(ValidUntil(now, lifetimeDays)))),
                             now + elapsed, 1)
      <==> lifetimeDays * MsPerDay - elapsed < MsPerDay
  {
    TimestampRoundTrip(now, lifetimeDays);
  }

  /** A check at the very instant of a regeneration keeps the certificate iff its lifetime is a day or more. */
  lemma FreshCertificateKept(now: int, lifetimeDays: int)
    ensures !ShouldRegenerate("self-signed", ReadTimestamp(Some(IntToText(ValidUntil(now, lifetimeDays)))), now, 1)
      <==> lifetimeDays >= 1
  {
    CheckAfterRegeneration(now, 0, lifetimeDays);
    if lifetimeDays >= 1 {
      MsPerDayScales(lifetimeDays, 1);
    } else {
      MsPerDayScales(0, lifetimeDays);
    }
  }

  /** The periodic check one interval (a day) after a regeneration keeps it iff the lifetime exceeds a day. */
  lemma NextCheckKeepsCertificate(now: int, lifetimeDays: int)
    ensures !ShouldRegenerate("self-signed", ReadTimestamp(Some(IntToText(ValidUntil(now, lifetimeDays)))),
                              now + MsPerDay, 1)
      <==> lifetimeDays > 1
  {
    CheckAfterRegeneration(now, MsPerDay, lifetimeDays);
    if lifetimeDays > 1 {
      MsPerDayScales(lifetimeDays, 2);
    } else {
      MsPerDayScales(1, lifetimeDays);
    }
  }

  lemma MsPerDayScales(a: int, b: int)
    requires b <= a
    ensures b * MsPerDay <= a * MsPerDay
  {
  }

  /**
   * The crypto folder after a regeneration that writes `stamp` as the timestamp: the certificate,
   * then the key, then the timestamp, stopping at the first write that fails. A key is never
   * replaced without the new certificate, and a timestamp never without both.
   */
  function AfterRegeneration(files: map<string, string>, writeFaults: map<string, string>,
                             generated: Result<KeyPair, string>, stamp: string): (r: map<string, string>)
    ensures forall k :: k != CertFile && k != KeyFile && k != TimestampFile ==>
      (k in r <==> k in files) && (k in r ==> r[k] == files[k])
    ensures generated.Err? ==> r == files
    ensures KeyFile in r && (KeyFile !in files || r[KeyFile] != files[KeyFile]) ==>
      generated.Ok? && r[KeyFile] == generated.value.key && CertFile in r && r[CertFile] == generated.value.cert
    ensures TimestampFile in r && (TimestampFile !in files || r[TimestampFile] != files[TimestampFile]) ==>
      && generated.Ok? && r[TimestampFile] == stamp
      && CertFile in r && r[CertFile] == generated.value.cert && KeyFile in r && r[KeyFile] == generated.value.key
  {
    if generated.Err? || CertFile in writeFaults then files
    else if KeyFile in writeFaults then files[CertFile := generated.value.cert]
    else if TimestampFile in writeFaults then files[CertFile := generated.value.cert][KeyFile := generated.value.key]
    else files[CertFile := generated.value.cert][KeyFile := generated.value.key][TimestampFile := stamp]
  }

  class SslManager {
    var certRegenInterval: int
    var certRegenThreshold: int
    /** The crypto folder: file name -> contents. */
    var files: map<string, string>
    /** Files whose writes fail, with the error. */
    const writeFaults: map<string, string>

    constructor (files: map<string, string>, writeFaults: map<string, string>)
      ensures this.files == files && this.writeFaults == writeFaults
    {
      this.files := files;
      this.writeFaults := writeFaults;
    }

    function FileAt(path: string): Option<string>
      reads this
    {
      if path in files then Some(files[path]) else None
    }

    /** `shouldRegenerateCert` against the current folder and the configured interval. */
    function ShouldRegenerateCert(cfg: SslConfig, now: int): (b: bool)
      reads this
      ensures cfg.sourceType != "self-signed" ==> !b
      ensures cfg.sourceType == "self-signed" && TimestampFile !in files ==> b
      ensures TimestampFile in files && ParseInt(files[TimestampFile]).Int? ==>
        (b <==> cfg.sourceType == "self-signed"
                && ParseInt(files[TimestampFile]).value - now < certRegenInterval * MsPerDay)
    {
      ShouldRegenerate(cfg.sourceType, ReadTimestamp(FileAt(TimestampFile)), now, certRegenInterval)
    }

    /** `setTimestamp`: records and returns the instant `lifetimeDays` after `now`. */
    method SetTimestamp(lifetimeDays: int, now: int) returns (r: Result<int, FsError>)
      modifies this
      ensures certRegenInterval == old(certRegenInterval) && certRegenThreshold == old(certRegenThreshold)
      ensures TimestampFile in writeFaults ==>
        r == Err(WriteFailed(writeFaults[TimestampFile])) && files == old(files)
      ensures TimestampFile !in writeFaults ==>
        r == Ok(ValidUntil(now, lifetimeDays)) && files == old(files)[TimestampFile := IntToText(r.value)]
      ensures r.Ok? ==> ReadTimestamp(FileAt(TimestampFile)) == At(r.value)
    {
      var validUntil := ValidUntil(now, lifetimeDays);
      if TimestampFile in writeFaults {
        return Err(WriteFailed(writeFaults[TimestampFile]));
      }
      TimestampRoundTrip(now, lifetimeDays);
      files := files[TimestampFile := IntToText(validUntil)];
      assert FileAt(TimestampFile) == Some(IntToText(validUntil));
      r := Ok(validUntil);
    }

    /**
     * `generateSSLCert`: writes the certificate, then the key, then the timestamp; the first
     * failure is returned and the later steps are skipped.
     */
    method GenerateSslCert(cfg: SslConfig, generated: Result<KeyPair, string>, now: int)
      returns (err: Option<FsError>)
      modifies this
      ensures certRegenInterval == old(certRegenInterval) && certRegenThreshold == old(certRegenThreshold)
      ensures generated.Err? ==> err == Some(GenerationFailed(generated.error)) && files == old(files)
      ensures generated.Ok? && CertFile in writeFaults ==>
        err == Some(WriteFailed(writeFaults[CertFile])) && files == old(files)
      ensures generated.Ok? && CertFile !in writeFaults && KeyFile in writeFaults ==>
        err == Some(WriteFailed(writeFaults[KeyFile])) && files == old(files)[CertFile := generated.value.cert]
      ensures generated.Ok? && CertFile !in writeFaults && KeyFile !in writeFaults && TimestampFile in writeFaults ==>
        && err == Some(WriteFailed(writeFaults[TimestampFile]))
        && files == old(files)[CertFile := generated.value.cert][KeyFile := generated.value.key]
      ensures err.None? <==>
        generated.Ok? && CertFile !in writeFaults && KeyFile !in writeFaults && TimestampFile !in writeFaults
      ensures files == AfterRegeneration(old(files), writeFaults, generated, IntToText(ValidUntil(now, cfg.lifetimeDays)))
      ensures err.None? ==>
        files == old(files)[CertFile := generated.value.cert][KeyFile := generated.value.key]
                           [TimestampFile := IntToText(ValidUntil(now, cfg.lifetimeDays))]
      ensures err.None? && certRegenInterval == 1 && cfg.sourceType == "self-signed" ==>
        (ShouldRegenerateCert(cfg, now) <==> cfg.lifetimeDays < 1)
    {
      if generated.Err? {
        return Some(GenerationFailed(generated.error));
      }
      if CertFile in writeFaults {
        return Some(WriteFailed(writeFaults[CertFile]));
      }
      files := files[CertFile := generated.value.cert];
      if KeyFile in writeFaults {
        return Some(WriteFailed(writeFaults[KeyFile]));
      }
      files := files[KeyFile := generated.value.key];
      var stamped := SetTimestamp(cfg.lifetimeDays, now);
      if stamped.Err? {
        return Some(stamped.error);
      }
      FreshCertificateKept(now, cfg.lifetimeDays);
      err := None;
    }

    /**
     * `getSSLCertKeyData`: an external source reads both the certificate and the key from the
     * configured certificate path; any other source reads the generated pair.
     */
    method GetSslCertKeyData(cfg: SslConfig) returns (r: Result<KeyPair, FsError>)
      ensures cfg.sourceType == "external" && cfg.externalCert.None? ==> r == Err(InvalidPath)
      ensures cfg.sourceType == "external" && cfg.externalCert.Some? ==>
        (r.Ok? <==> cfg.externalCert.value in files)
        && (r.Ok? ==> r.value.cert == files[cfg.externalCert.value] && r.value.key == r.value.cert)
        && (r.Err? ==> r == Err(NoSuchFile(cfg.externalCert.value)))
      ensures cfg.sourceType != "external" ==>
        (r.Ok? <==> CertFile in files && KeyFile in files)
        && (r.Ok? ==> r.value == KeyPair(files[CertFile], files[KeyFile]))
        && (r.Err? ==> r == Err(NoSuchFile(if CertFile !in files then CertFile else KeyFile)))
    {
      var certPath, keyPath;
      if cfg.sourceType == "external" {
        if cfg.externalCert.None? {
          return Err(InvalidPath);
        }
        certPath, keyPath := cfg.externalCert.value, cfg.externalCert.value;
      } else {
        certPath, keyPath := CertFile, KeyFile;
      }
      if certPath !in files {
        return Err(NoSuchFile(certPath));
      }
      var cert := files[certPath];
      if keyPath !in files {
        return Err(NoSuchFile(keyPath));
      }
      r := Ok(KeyPair(cert, files[keyPath]));
    }

    /**
     * `init`: sets the one-day check interval and ten-day threshold, then, for a self-signed source
     * served over HTTPS, runs the check once and regenerates when it asks to; the error of that
     * regeneration is dropped.
     */
    method Init(cfg: SslConfig, generated: Result<KeyPair, string>, checkNow: int, writeNow: int)
      modifies this
      ensures certRegenInterval == 1 && certRegenThreshold == 10
      ensures !(cfg.sourceType == "self-signed" && cfg.useHttps) ==> files == old(files)
      ensures !ShouldRegenerate(cfg.sourceType, ReadTimestamp(old(FileAt(TimestampFile))), checkNow, 1) ==>
        files == old(files)
      ensures (&& cfg.sourceType == "self-signed" && cfg.useHttps
               && ShouldRegenerate(cfg.sourceType, ReadTimestamp(old(FileAt(TimestampFile))), checkNow, 1)
               && generated.Ok? && CertFile !in writeFaults && KeyFile !in writeFaults && TimestampFile !in writeFaults)
        ==> files == old(files)[CertFile := generated.value.cert][KeyFile := generated.value.key]
                             [TimestampFile := IntToText(ValidUntil(writeNow, cfg.lifetimeDays))]
      ensures cfg.sourceType == "self-signed" && cfg.useHttps
        && ShouldRegenerate(cfg.sourceType, ReadTimestamp(old(FileAt(TimestampFile))), checkNow, 1)
        ==> files == AfterRegeneration(old(files), writeFaults, generated,
                                       IntToText(ValidUntil(writeNow, cfg.lifetimeDays)))
    {
      certRegenInterval := 1;
      certRegenThreshold := 10;
      if cfg.sourceType == "self-signed" && cfg.useHttps {
        if ShouldRegenerateCert(cfg, checkNow) {
          var _ := GenerateSslCert(cfg, generated, writeNow);
        }
      }
    }
  }
}
