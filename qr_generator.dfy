/**
 * The QR code generator's payloads and form state (`QRGenerator` in scripts/qr-generator.js).
 * Every payload is built from the form's field values; `encodeURIComponent` is a parameter
 * `enc`, and the timestamp of a download name is the ISO string passed in.
 */
module QrGeneration {
  import opened Text

  /** The values of every input of the form. */
  datatype Form = Form(
    text: string, url: string,
    wifiSsid: string, wifiPassword: string, wifiSecurity: string, wifiHidden: bool,
    contactName: string, contactPhone: string, contactEmail: string, contactOrg: string, contactAddress: string,
    emailTo: string, emailSubject: string, emailBody: string,
    phoneNumber: string, smsNumber: string, smsMessage: string)

  /** The customization controls: size slider, colours, error correction and logo slider. */
  datatype Customization = Customization(
    size: int, foreground: string, background: string, errorCorrection: string,
    logoUpload: string, logoSize: int, logoSizeDisabled: bool)

  /** The form as `clearAll` leaves it. */
  const ClearedForm := Form("", "", "", "", "WPA", false, "", "", "", "", "", "", "", "", "", "", "")

  const DefaultCustomization := Customization(256, "#000000", "#ffffff", "M", "", 20, true)

  // ---------------------------------------------------------------------------
  // URL
  // ---------------------------------------------------------------------------

  predicate HasHttpScheme(s: string) { StartsWith(s, "http://") || StartsWith(s, "https://") }

  /** The `url` case: the trimmed value, with `https://` put in front when it has no scheme. */
  function NormalizeUrl(raw: string): (r: string)
    ensures r == "" <==> Trim(raw) == ""
    ensures r != "" ==> HasHttpScheme(r)
    ensures EndsWith(r, Trim(raw))
    ensures HasHttpScheme(Trim(raw)) ==> r == Trim(raw)
    ensures Trim(raw) != "" && !HasHttpScheme(Trim(raw)) ==> r == "https://" + Trim(raw)
  {
    var url := Trim(raw);
    if url != "" && !HasHttpScheme(url) then
      EndsWithConcat("https://", url);
      assert StartsWith("https://" + url, "https://");
      "https://" + url
    else
      assert url[|url| - |url|..] == url;
      url
  }

  /** Normalizing a normalized URL changes nothing. */
  lemma NormalizeUrlIdempotent(raw: string)
    ensures NormalizeUrl(NormalizeUrl(raw)) == NormalizeUrl(raw)
  {
    var r := NormalizeUrl(raw);
    NormalizedIsTrimmed(raw);
    TrimOfTrimmed(r);
  }

  /** A normalized URL has no whitespace at either end. */
  lemma NormalizedIsTrimmed(raw: string)
    ensures IsTrimmed(NormalizeUrl(raw))
  {
    var url := Trim(raw);
    if url != "" && !HasHttpScheme(url) {
      var r := "https://" + url;
      assert r[0] == 'h' && r[|r| - 1] == url[|url| - 1];
    }
  }

  // ---------------------------------------------------------------------------
  // WiFi
  // ---------------------------------------------------------------------------

  function BoolText(b: bool): string { if b then "true" else "false" }

  /** The `WIFI:T:…;S:…;P:…;H:…;;` template. */
  function WifiPayload(ssid: string, password: string, security: string, hidden: bool): string {
    "WIFI:T:" + security + ";S:" + ssid + ";P:" + password + ";H:" + BoolText(hidden) + ";;"
  }

  /** The `wifi` case, given the trimmed SSID: nothing without an SSID, else the template. */
  function WifiContent(ssid: string, password: string, security: string, hidden: bool): (r: string)
    ensures r == "" <==> ssid == ""
  {
    if ssid == "" then "" else WifiPayload(ssid, password, security, hidden)
  }

  /**
   * With no `;` in the security, the SSID or the password, the payload's six `;`-separated
   * fields give back each value behind its tag, and the last two fields are empty.
   */
  lemma WifiFields(ssid: string, password: string, security: string, hidden: bool)
    requires ';' !in security && ';' !in ssid && ';' !in password
    ensures Split(WifiPayload(ssid, password, security, hidden), ';')
         == ["WIFI:T:" + security, "S:" + ssid, "P:" + password, "H:" + BoolText(hidden), "", ""]
  {
    WifiRegroup(security, ssid, password, BoolText(hidden));
    assert ';' !in "H:" + BoolText(hidden);
    SplitFour("WIFI:T:" + security, "S:" + ssid, "P:" + password, "H:" + BoolText(hidden));
  }

  /** Four `;`-free fields, each closed by a `;`, then one more `;`. */
  lemma SplitFour(a: string, b: string, c: string, d: string)
    requires ';' !in a && ';' !in b && ';' !in c && ';' !in d
    ensures Split(a + ";" + (b + ";" + (c + ";" + (d + ";" + ("" + ";" + "")))), ';') == [a, b, c, d, "", ""]
  {
    var t4 := "" + ";" + "";
    var t3 := d + ";" + t4;
    var t2 := c + ";" + t3;
    var t1 := b + ";" + t2;
    SplitAfterPrefix("", ';', "");
    SplitAfterPrefix(d, ';', t4);
    SplitAfterPrefix(c, ';', t3);
    SplitAfterPrefix(b, ';', t2);
    SplitAfterPrefix(a, ';', t1);
  }

  lemma WifiRegroup(security: string, ssid: string, password: string, h: string)
    ensures "WIFI:T:" + security + ";S:" + ssid + ";P:" + password + ";H:" + h + ";;"
         == "WIFI:T:" + security + ";" + ("S:" + ssid + ";" + ("P:" + password + ";" + ("H:" + h + ";" + ("" + ";" + ""))))
  {
    assert "WIFI:T:" + security + ";S:" + ssid == "WIFI:T:" + security + ";" + ("S:" + ssid);
  }

  /**
   * Nothing is escaped, so a `;P:` inside an SSID makes two different networks give the same
   * payload.
   */
  lemma WifiPayloadIsAmbiguous(a: string, b: string, security: string, hidden: bool)
    ensures WifiPayload(a + ";P:" + b, "", security, hidden) == WifiPayload(a, b + ";P:", security, hidden)
  {
  }

  // ---------------------------------------------------------------------------
  // Contact (vCard 3.0, RFC 2426)
  // ---------------------------------------------------------------------------

  /** One line of the card when it is present, or nothing. */
  function Line(present: bool, line: string): seq<string> {
    if present then [line] else []
  }

  /** The same line as text, with its LF. */
  function Field(present: bool, line: string): string {
    if present then line + "\n" else ""
  }

  /** The card's fixed lines. */
  const CardBegin := "BEGIN:VCARD"
  const CardVersion := "VERSION:3.0"
  const CardEnd := "END:VCARD"

  /** The lines of the card: header, the non-empty fields in the order FN, TEL, EMAIL, ORG, ADR, footer. */
  function VCardLines(name: string, phone: string, email: string, org: string, address: string): (r: seq<string>)
    ensures |r| >= 3 && r[0] == CardBegin && r[1] == CardVersion && r[|r| - 1] == CardEnd
  {
    [CardBegin, CardVersion]
    + Line(name != "", "FN:" + name) + Line(phone != "", "TEL:" + phone) + Line(email != "", "EMAIL:" + email)
    + Line(org != "", "ORG:" + org) + Line(address != "", "ADR:;;" + address + ";;;;")
    + [CardEnd]
  }

  /** The card text the source's `vcard +=` steps build from the trimmed fields. */
  function CardText(name: string, phone: string, email: string, org: string, address: string): string {
    CardBegin + "\n" + CardVersion + "\n"
    + Field(name != "", "FN:" + name) + Field(phone != "", "TEL:" + phone) + Field(email != "", "EMAIL:" + email)
    + Field(org != "", "ORG:" + org) + Field(address != "", "ADR:;;" + address + ";;;;")
    + CardEnd
  }

  /** The `contact` case, given the trimmed fields: nothing without a name and a phone, else the card. */
  function ContactContent(name: string, phone: string, email: string, org: string, address: string): (r: string)
    ensures r == "" <==> name == "" && phone == ""
  {
    if name == "" && phone == "" then "" else CardText(name, phone, email, org, address)
  }

  /** A field ahead of more text adds its line, when present, to the front of the lines. */
  lemma SplitField(present: bool, line: string, rest: string)
    requires '\n' !in line
    ensures Split(Field(present, line) + rest, '\n') == Line(present, line) + Split(rest, '\n')
  {
    if !present {
      assert Field(present, line) + rest == rest;
    } else {
      assert Field(present, line) + rest == line + ['\n'] + rest;
      SplitAfterPrefix(line, '\n', rest);
    }
  }

  /** The card text regrouped as header lines ahead of the nested fields and the footer. */
  lemma CardTextNested(name: string, phone: string, email: string, org: string, address: string)
    ensures CardText(name, phone, email, org, address)
         == CardBegin + ['\n'] + (CardVersion + ['\n'] + (Field(name != "", "FN:" + name) + (Field(phone != "", "TEL:" + phone)
            + (Field(email != "", "EMAIL:" + email) + (Field(org != "", "ORG:" + org) + (Field(address != "", "ADR:;;" + address + ";;;;") + CardEnd))))))
  {
    CardRegroup(Field(name != "", "FN:" + name), Field(phone != "", "TEL:" + phone), Field(email != "", "EMAIL:" + email),
                Field(org != "", "ORG:" + org), Field(address != "", "ADR:;;" + address + ";;;;"));
  }

  lemma CardRegroup(a: string, b: string, c: string, d: string, e: string)
    ensures CardBegin + "\n" + CardVersion + "\n" + a + b + c + d + e + CardEnd
         == CardBegin + ['\n'] + (CardVersion + ['\n'] + (a + (b + (c + (d + (e + CardEnd))))))
  {
  }

  lemma LinesRegroup(a: seq<string>, b: seq<string>, c: seq<string>, d: seq<string>, e: seq<string>)
    ensures [CardBegin, CardVersion] + a + b + c + d + e + [CardEnd]
         == [CardBegin] + ([CardVersion] + (a + (b + (c + (d + (e + [CardEnd]))))))
  {
  }

  /** Five optional lines ahead of a tail: the present ones, in order, then the tail's lines. */
  lemma SplitFields(p1: bool, x1: string, p2: bool, x2: string, p3: bool, x3: string,
                    p4: bool, x4: string, p5: bool, x5: string, tail: string)
    requires '\n' !in x1 && '\n' !in x2 && '\n' !in x3 && '\n' !in x4 && '\n' !in x5
    ensures Split(Field(p1, x1) + (Field(p2, x2) + (Field(p3, x3) + (Field(p4, x4) + (Field(p5, x5) + tail)))), '\n')
         == Line(p1, x1) + (Line(p2, x2) + (Line(p3, x3) + (Line(p4, x4) + (Line(p5, x5) + Split(tail, '\n')))))
  {
    var t4 := Field(p5, x5) + tail;
    var t3 := Field(p4, x4) + t4;
    var t2 := Field(p3, x3) + t3;
    var t1 := Field(p2, x2) + t2;
    SplitField(p5, x5, tail);
    SplitField(p4, x4, t4);
    SplitField(p3, x3, t3);
    SplitField(p2, x2, t2);
    SplitField(p1, x1, t1);
  }

  lemma SplitCardEnd()
    ensures Split(CardEnd, '\n') == [CardEnd]
  {
    SplitWithoutSeparator(CardEnd, '\n');
  }

  lemma SplitHeader(t: string)
    ensures Split(CardBegin + ['\n'] + (CardVersion + ['\n'] + t), '\n') == [CardBegin] + ([CardVersion] + Split(t, '\n'))
  {
    SplitAfterPrefix(CardVersion, '\n', t);
    SplitAfterPrefix(CardBegin, '\n', CardVersion + ['\n'] + t);
  }

  /**
   * A contact with a name or a phone is a card whose LF-separated lines are, when no field holds
   * a line break, the header, the non-empty fields in the order FN, TEL, EMAIL, ORG, ADR, and
   * `END:VCARD`.
   */
  lemma ContactLines(name: string, phone: string, email: string, org: string, address: string)
    requires name != "" || phone != ""
    requires '\n' !in name && '\n' !in phone && '\n' !in email && '\n' !in org && '\n' !in address
    ensures Split(ContactContent(name, phone, email, org, address), '\n') == VCardLines(name, phone, email, org, address)
  {
    CardLines(name, phone, email, org, address);
  }

  /** The card text, split at LF, gives the card's lines when no field holds a line break. */
  lemma CardLines(name: string, phone: string, email: string, org: string, address: string)
    requires '\n' !in name && '\n' !in phone && '\n' !in email && '\n' !in org && '\n' !in address
    ensures Split(CardText(name, phone, email, org, address), '\n') == VCardLines(name, phone, email, org, address)
  {
    var x1, x2, x3, x4, x5 := "FN:" + name, "TEL:" + phone, "EMAIL:" + email, "ORG:" + org, "ADR:;;" + address + ";;;;";
    var p1, p2, p3, p4, p5 := name != "", phone != "", email != "", org != "", address != "";
    var t1 := Field(p1, x1) + (Field(p2, x2) + (Field(p3, x3) + (Field(p4, x4) + (Field(p5, x5) + CardEnd))));
    SplitFields(p1, x1, p2, x2, p3, x3, p4, x4, p5, x5, CardEnd);
    SplitCardEnd();
    SplitHeader(t1);
    CardTextNested(name, phone, email, org, address);
    LinesRegroup(Line(p1, x1), Line(p2, x2), Line(p3, x3), Line(p4, x4), Line(p5, x5));
  }

  /**
   * The address value `;;<address>;;;;` has the seven components of an RFC 2426 ADR, with the
   * address in the third (the street address).
   */
  lemma AddressComponents(address: string)
    requires ';' !in address
    ensures Split(";;" + address + ";;;;", ';') == ["", "", address, "", "", "", ""]
  {
    var t3 := "" + ";" + ("" + ";" + ("" + ";" + ""));
    SplitAfterPrefix("", ';', "");
    SplitAfterPrefix("", ';', "" + ";" + "");
    SplitAfterPrefix("", ';', "" + ";" + ("" + ";" + ""));
    SplitAfterPrefix(address, ';', t3);
    SplitAfterPrefix("", ';', address + ";" + t3);
    SplitAfterPrefix("", ';', "" + ";" + (address + ";" + t3));
    assert ";;" + address + ";;;;" == "" + ";" + ("" + ";" + (address + ";" + t3));
  }

  // ---------------------------------------------------------------------------
  // Email, phone and SMS (RFC 6068, RFC 3966, RFC 5724)
  // ---------------------------------------------------------------------------

  /** The `subject=` and `body=` parameters, in that order, each only when its value is non-empty. */
  function MailParams(subject: string, body: string, enc: string -> string): (r: seq<string>)
    ensures |r| <= 2
    ensures r == [] <==> subject == "" && body == ""
  {
    (if subject != "" then ["subject=" + enc(subject)] else [])
    + (if body != "" then ["body=" + enc(body)] else [])
  }

  /** The `email` case, given trimmed values: `mailto:<to>`, then `?` and the `&`-joined parameters when there are any. */
  function MailtoContent(to: string, subject: string, body: string, enc: string -> string): (r: string)
    ensures r == "" <==> to == ""
    ensures r != "" ==> StartsWith(r, "mailto:" + to)
  {
    if to == "" then ""
    else
      var params := MailParams(subject, body, enc);
      "mailto:" + to + (if |params| > 0 then "?" + Join(params, "&") else "")
  }

  /**
   * When the encoder never yields `&`, the text after `mailto:<to>?` splits on `&` into exactly
   * the non-empty parameters, subject first; with neither, nothing follows `mailto:<to>`.
   */
  lemma MailtoQuery(to: string, subject: string, body: string, enc: string -> string)
    requires to != ""
    requires forall s :: '&' !in enc(s)
    ensures var head, params := "mailto:" + to, MailParams(subject, body, enc);
      var r := MailtoContent(to, subject, body, enc);
      (params == [] ==> r == head)
      && (params != [] ==> r[..|head| + 1] == head + "?" && Split(r[|head| + 1..], '&') == params)
  {
    var head, params := "mailto:" + to, MailParams(subject, body, enc);
    var r := MailtoContent(to, subject, body, enc);
    if params != [] {
      var q := Join(params, "&");
      assert r == head + "?" + q;
      assert r[..|head| + 1] == head + "?";
      assert r[|head| + 1..] == q;
      SplitParams(subject, body, enc);
    }
  }

  lemma SplitParams(subject: string, body: string, enc: string -> string)
    requires subject != "" || body != ""
    requires forall s :: '&' !in enc(s)
    ensures Split(Join(MailParams(subject, body, enc), "&"), '&') == MailParams(subject, body, enc)
  {
    var params := MailParams(subject, body, enc);
    if subject != "" && body != "" {
      var p0, p1 := "subject=" + enc(subject), "body=" + enc(body);
      assert '&' !in enc(subject) && '&' !in enc(body);
      assert Join(params, "&") == p0 + ['&'] + p1;
      SplitAfterPrefix(p0, '&', p1);
      SplitWithoutSeparator(p1, '&');
    } else {
      assert '&' !in enc(subject) && '&' !in enc(body);
      SplitWithoutSeparator(params[0], '&');
    }
  }

  /** The `phone` case, given the trimmed number: `tel:<number>`, or nothing without a number. */
  function TelContent(n: string): (r: string)
    ensures r == "" <==> n == ""
    ensures r != "" ==> StartsWith(r, "tel:") && r[4..] == n
  {
    if n == "" then "" else "tel:" + n
  }

  /** The `sms` case, given trimmed values: `sms:<number>`, and `?body=<message>` when there is a message. */
  function SmsContent(n: string, m: string, enc: string -> string): (r: string)
    ensures r == "" <==> n == ""
    ensures r != "" ==> StartsWith(r, "sms:" + n)
    ensures r != "" && m == "" ==> |r| == |n| + 4
    ensures r != "" && m != "" ==> r[|n| + 4..] == "?body=" + enc(m)
  {
    if n == "" then "" else "sms:" + n + (if m != "" then "?body=" + enc(m) else "")
  }

  // ---------------------------------------------------------------------------
  // Dispatch on the current type
  // ---------------------------------------------------------------------------

  /** `getQRContent`: the payload for the current type; an unknown type gives `''`. */
  function Content(currentType: string, f: Form, enc: string -> string): string {
    match currentType
    case "text" => Trim(f.text)
    case "url" => NormalizeUrl(f.url)
    case "wifi" => WifiContent(Trim(f.wifiSsid), f.wifiPassword, f.wifiSecurity, f.wifiHidden)
    case "contact" =>
      ContactContent(Trim(f.contactName), Trim(f.contactPhone), Trim(f.contactEmail), Trim(f.contactOrg), Trim(f.contactAddress))
    case "email" => MailtoContent(Trim(f.emailTo), Trim(f.emailSubject), Trim(f.emailBody), enc)
    case "phone" => TelContent(Trim(f.phoneNumber))
    case "sms" => SmsContent(Trim(f.smsNumber), Trim(f.smsMessage), enc)
    case _ => ""
  }

  /**
   * `hasContent`, as the truthiness of what it returns: the trimmed key field (for a contact,
   * the name or else the phone), or `false` for an unknown type.
   */
  predicate HasContent(currentType: string, f: Form) {
    match currentType
    case "text" => Trim(f.text) != ""
    case "url" => Trim(f.url) != ""
    case "wifi" => Trim(f.wifiSsid) != ""
    case "contact" => Trim(f.contactName) != "" || Trim(f.contactPhone) != ""
    case "email" => Trim(f.emailTo) != ""
    case "phone" => Trim(f.phoneNumber) != ""
    case "sms" => Trim(f.smsNumber) != ""
    case _ => false
  }

  /** For every type and every form, `hasContent` is truthy exactly when there is a payload. */
  lemma HasContentIffPayload(currentType: string, f: Form, enc: string -> string)
    ensures HasContent(currentType, f) <==> Content(currentType, f, enc) != ""
  {
    match currentType
    case "text" =>
    case "url" =>
    case "wifi" =>
    case "contact" =>
      var name, phone := Trim(f.contactName), Trim(f.contactPhone);
      if name != "" || phone != "" {
        assert |ContactContent(name, phone, Trim(f.contactEmail), Trim(f.contactOrg), Trim(f.contactAddress))| >= 9;
      }
    case "email" =>
    case "phone" =>
    case "sms" =>
    case _ =>
  }

  /** The cleared form gives no payload, whatever the type. */
  lemma ClearedFormIsEmpty(currentType: string, enc: string -> string)
    ensures Content(currentType, ClearedForm, enc) == ""
  {
    HasContentIffPayload(currentType, ClearedForm, enc);
    assert Trim("") == "";
  }

  // ---------------------------------------------------------------------------
  // Download name
  // ---------------------------------------------------------------------------

  predicate IsStampChar(c: char) { c != '-' && c != ':' }

  /** The first 19 chars of the ISO time, without its `-` and `:`. */
  function Stamp(iso: string): (r: string)
    ensures |r| <= 19
    ensures forall i :: 0 <= i < |r| ==> IsStampChar(r[i])
  {
    FilterFacts(JsSubstring(iso, 0, 19), IsStampChar);
    Filter(JsSubstring(iso, 0, 19), IsStampChar)
  }

  /** `generateFilename`: `qrcode_<type>_<stamp>.<format>`. */
  function FileName(currentType: string, iso: string, format: string): (r: string)
    ensures StartsWith(r, "qrcode_" + currentType + "_")
    ensures EndsWith(r, "." + format)
  {
    var head, tail := "qrcode_" + currentType + "_", Stamp(iso) + ("." + format);
    StartsWithConcat(head, tail);
    EndsWithConcat(Stamp(iso), "." + format);
    EndsWithPrepend(head, tail, "." + format);
    head + tail
  }

  /** For an ISO time, the name is the prefix, the 15-character `YYYYMMDDTHHMMSS` stamp, then the format. */
  lemma FileNameOfIsoTime(currentType: string, iso: string, format: string)
    requires IsIsoTime(iso)
    ensures FileName(currentType, iso, format)
      == "qrcode_" + currentType + "_"
         + (iso[0..4] + iso[5..7] + iso[8..13] + iso[14..16] + iso[17..19])
         + "." + format
    ensures |FileName(currentType, iso, format)| == |currentType| + |format| + 24
  {
    StampOfIsoTime(iso);
  }

  /** `YYYY-MM-DDTHH:MM:SS…` as `toISOString` writes it. */
  predicate IsIsoTime(iso: string) {
    |iso| >= 19 && iso[4] == '-' && iso[7] == '-' && iso[10] == 'T' && iso[13] == ':' && iso[16] == ':'
    && forall i :: 0 <= i < 19 && i != 4 && i != 7 && i != 10 && i != 13 && i != 16 ==> IsDigit(iso[i])
  }

  /** For an ISO time, the stamp is the 15 chars `YYYYMMDDTHHMMSS`. */
  lemma StampOfIsoTime(iso: string)
    requires IsIsoTime(iso)
    ensures Stamp(iso) == iso[0..4] + iso[5..7] + iso[8..13] + iso[14..16] + iso[17..19]
    ensures |Stamp(iso)| == 15
  {
    assert JsSubstring(iso, 0, 19) == iso[..19];
    KeepRun(iso, 0, 4, []);
    DropAt(iso, 4, iso[0..4]);
    KeepRun(iso, 5, 7, iso[0..4]);
    DropAt(iso, 7, iso[0..4] + iso[5..7]);
    KeepRun(iso, 8, 13, iso[0..4] + iso[5..7]);
    DropAt(iso, 13, iso[0..4] + iso[5..7] + iso[8..13]);
    KeepRun(iso, 14, 16, iso[0..4] + iso[5..7] + iso[8..13]);
    DropAt(iso, 16, iso[0..4] + iso[5..7] + iso[8..13] + iso[14..16]);
    KeepRun(iso, 17, 19, iso[0..4] + iso[5..7] + iso[8..13] + iso[14..16]);
  }

  /** A run of kept chars extends the filtered prefix by itself. */
  lemma KeepRun(s: string, i: nat, j: nat, acc: string)
    requires i <= j <= |s|
    requires Filter(s[..i], IsStampChar) == acc
    requires forall m :: i <= m < j ==> IsStampChar(s[m])
    ensures Filter(s[..j], IsStampChar) == acc + s[i..j]
  {
    assert s[..j] == s[..i] + s[i..j];
    KeepStampChars(s[..i], s[i..j]);
  }

  /** A `-` or `:` leaves the filtered prefix as it was. */
  lemma DropAt(s: string, k: nat, acc: string)
    requires k < |s|
    requires Filter(s[..k], IsStampChar) == acc
    requires !IsStampChar(s[k])
    ensures Filter(s[..k + 1], IsStampChar) == acc
  {
    assert s[..k + 1] == s[..k] + [s[k]];
    DropSeparator(s[..k], s[k]);
  }

  /** Chars kept by the stamp pass through at the end. */
  lemma KeepStampChars(s: string, t: string)
    requires forall i :: 0 <= i < |t| ==> IsStampChar(t[i])
    ensures Filter(s + t, IsStampChar) == Filter(s, IsStampChar) + t
  {
    FilterAppend(s, t, IsStampChar);
    FilterAll(t, IsStampChar);
  }

  /** A `-` or `:` at the end is dropped. */
  lemma DropSeparator(s: string, x: char)
    requires !IsStampChar(x)
    ensures Filter(s + [x], IsStampChar) == Filter(s, IsStampChar)
  {
    FilterAppend(s, [x], IsStampChar);
    assert Filter([x], IsStampChar) == [];
  }

  // ---------------------------------------------------------------------------
  // The generator's state
  // ---------------------------------------------------------------------------

  /**
   * The generator: the current type, the form, the customization, whether a logo is loaded and
   * whether a QR code is shown (`currentCanvas` non-null).
   */
  class QrGenerator {
    var currentType: string
    var form: Form
    var custom: Customization
    var hasLogo: bool
    var hasPreview: bool

    /** The constructor starts on the `text` type without a logo; the inputs hold the page's values. */
    constructor(initialForm: Form, initialCustom: Customization)
      ensures currentType == "text" && form == initialForm && custom == initialCustom
      ensures !hasLogo && !hasPreview
    {
      currentType := "text";
      form := initialForm;
      custom := initialCustom;
      hasLogo := false;
      hasPreview := false;
    }

    /** The payload of the current state. */
    function Payload(enc: string -> string): string
      reads this
    {
      Content(currentType, form, enc)
    }

    /** `selectType`: switches type and clears the preview; the inputs keep their values. */
    method SelectType(t: string)
      modifies this
      ensures currentType == t && !hasPreview
      ensures form == old(form) && custom == old(custom) && hasLogo == old(hasLogo)
    {
      currentType := t;
      hasPreview := false;
    }

    /** `clearAll`: every input and control back to its default, no logo, the `text` type. */
    method ClearAll()
      modifies this
      ensures currentType == "text" && form == ClearedForm && custom == DefaultCustomization
      ensures !hasLogo && !hasPreview
    {
      form := ClearedForm;
      custom := DefaultCustomization;
      hasLogo := false;
      hasPreview := false;
      SelectType("text");
    }
  }
}
