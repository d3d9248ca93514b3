// The clock-in page of pages/paginaFichajeMovil.py: which source tag a
// record gets, whether the clock-in/clock-out buttons are offered or a
// reason is shown instead, and the confirmation message after a record.
//
// The geolocation widget, the geodesic distance and the QR decoders are
// outside the model: the location arrives as a `GeoReading` that already
// says whether the user is within 100 m, and the scanned QR as its text.

module FichajeGate {
  import opened Wrappers
  import opened Text
  import opened Calendar
  import opened Attendance
  import opened QrToken

  /** The radio choice "¿Cómo quieres fichar?". */
  datatype Metodo = Geolocalizacion | Qr

  /** `fuente_registro`. */
  function FuenteRegistro(m: Metodo): string
  {
    if m == Geolocalizacion then "movil_geo" else "movil_qr"
  }

  /** The two methods leave different source tags, both starting "movil_". */
  lemma FuenteDistinguishes(a: Metodo, b: Metodo)
    ensures "movil_" <= FuenteRegistro(a)
    ensures FuenteRegistro(a) == FuenteRegistro(b) <==> a == b
  {
    if a != b {
      assert FuenteRegistro(a)[6] != FuenteRegistro(b)[6];
    }
  }

  /** DISTANCIA_MAXIMA (0.1 km) in whole metres, as the message prints it. */
  const DistanciaMaximaMetros: int := 100

  /** What the geolocation widget gave: no usable latitude (nothing, or a
      falsy latitude), or a fix together with whether its geodesic distance
      to the office is at most DISTANCIA_MAXIMA. */
  datatype GeoReading = NoFix | Fix(withinRange: bool)

  /** `permitir_fichaje` and `motivo_bloqueo` after the method branch. */
  datatype Gate = Gate(permitir: bool, motivo: Option<string>)

  const MotivoLejos: string := "Estás a más de 100 m de la oficina."
  const MotivoSinUbicacion: string :=
    "No se pudo obtener tu ubicación. Permite el acceso a la ubicación en tu navegador."
  const MotivoQrInvalido: string := "QR no válido o caducado."
  const MotivoSinQr: string := "Aún no has escaneado un QR válido."

  /** The method branch of the page (lines 191-246). `qrTexto` is what the
      scanner or the photo decoder produced; `now` is the clock reading the
      payload check uses. */
  function Gating(m: Metodo, geo: GeoReading, qrTexto: Option<string>,
                  mac: (string, string) -> Digest, secret: string, periodHours: int, now: int): Gate
    requires periodHours != 0
  {
    match m
    case Geolocalizacion =>
      (match geo
       case NoFix => Gate(false, Some(MotivoSinUbicacion))
       case Fix(ok) => if ok then Gate(true, None) else Gate(false, Some(MotivoLejos)))
    case Qr =>
      if qrTexto.Some? && qrTexto.value != [] then
        if IsQrPayloadValid(mac, secret, periodHours, now, qrTexto.value) then Gate(true, None)
        else Gate(false, Some(MotivoQrInvalido))
      else Gate(false, Some(MotivoSinQr))
  }

  /** What the page shows under the observations box (lines 254-284). */
  datatype Offer = Buttons | Warning(msg: string) | NoOffer

  function OfferFor(g: Gate): Offer
  {
    if g.permitir then Buttons
    else if g.motivo.Some? && g.motivo.value != [] then Warning(g.motivo.value)
    else NoOffer
  }

  /** The buttons are offered exactly when clocking in is allowed, and a
      blocked user is always told why. */
  lemma ButtonsIffPermitted(m: Metodo, geo: GeoReading, qrTexto: Option<string>,
                            mac: (string, string) -> Digest, secret: string, periodHours: int, now: int)
    requires periodHours != 0
    ensures var g := Gating(m, geo, qrTexto, mac, secret, periodHours, now);
      (OfferFor(g) == Buttons <==> g.permitir) &&
      (g.permitir <==> g.motivo.None?) &&
      OfferFor(g) != NoOffer
  {
  }

  /** With geolocation, clocking is allowed exactly for a fix within range. */
  lemma GeoGateIff(geo: GeoReading, qrTexto: Option<string>,
                   mac: (string, string) -> Digest, secret: string, periodHours: int, now: int)
    requires periodHours != 0
    ensures Gating(Geolocalizacion, geo, qrTexto, mac, secret, periodHours, now).permitir <==> geo == Fix(true)
  {
  }

  /** With QR, clocking is allowed exactly when a non-empty payload was read
      and it is a "FICHAJE:" payload carrying a token of the current window
      or a neighbouring one. */
  lemma QrGateIff(geo: GeoReading, qrTexto: Option<string>,
                  mac: (string, string) -> Digest, secret: string, periodHours: int, now: int)
    requires periodHours != 0
    ensures Gating(Qr, geo, qrTexto, mac, secret, periodHours, now).permitir <==>
      qrTexto.Some? && QrPrefix <= qrTexto.value &&
      exists c :: WindowCounter(now, periodHours) - AllowedSkew <= c < WindowCounter(now, periodHours) + AllowedSkew + 1 &&
        Strip(qrTexto.value[|QrPrefix|..]) == TokenOf(mac, secret)(c)
  {
    if qrTexto.Some? {
      PayloadValidIff(mac, secret, periodHours, now, qrTexto.value);
    }
  }

  /** Scanning the office QR of the current window lets the user clock. */
  lemma CurrentQrPermits(geo: GeoReading, mac: (string, string) -> Digest, secret: string, periodHours: int, now: int)
    requires periodHours != 0
    ensures Gating(Qr, geo, Some(BuildQrPayload(CurrentToken(mac, secret, periodHours, now))),
                   mac, secret, periodHours, now).permitir
  {
    PayloadRoundTrip(mac, secret, periodHours, now);
  }

  // ---- The confirmation after a record ----

  /** The two timestamps of the record the backend returns (`reg.get`). */
  datatype Registro = Registro(fechaLocal: Option<string>, fechaUtc: Option<string>)

  predicate Truthy(o: Option<string>)
  {
    o.Some? && o.value != []
  }

  /** `fecha_txt`: the local time of the record, else its UTC time, else
      the clock reading `now` as "%Y-%m-%d %H:%M:%S". */
  function FechaTxt(reg: Registro, now: DateTime): (t: string)
    ensures t != []
    ensures Truthy(reg.fechaLocal) ==> t == reg.fechaLocal.value
    ensures !Truthy(reg.fechaLocal) && Truthy(reg.fechaUtc) ==> t == reg.fechaUtc.value
    ensures !Truthy(reg.fechaLocal) && !Truthy(reg.fechaUtc) ==> t == FormatDateTime(now)
  {
    if Truthy(reg.fechaLocal) then reg.fechaLocal.value
    else if Truthy(reg.fechaUtc) then reg.fechaUtc.value
    else FormatDateTime(now)
  }

  function KindWord(k: Kind): string
  {
    if k == Entrada then "Entrada" else "Salida"
  }

  /** The message as the page writes it: the f-string interpolates the
      literal 'fecha_txt', so the computed time never reaches the user. */
  function ConfirmacionAsWritten(k: Kind, reg: Registro, now: DateTime): string
  {
    KindWord(k) + " registrada — " + "fecha_txt"
  }

  /** The message as evidently intended: the computed `fecha_txt`. */
  function Confirmacion(k: Kind, reg: Registro, now: DateTime): (msg: string)
    ensures KindWord(k) + " registrada — " <= msg
    ensures msg[|KindWord(k) + " registrada — "|..] == FechaTxt(reg, now)
  {
    KindWord(k) + " registrada — " + FechaTxt(reg, now)
  }

  /** As written, the message is the same whatever the record says ... */
  lemma ConfirmacionAsWrittenIgnoresRecord(k: Kind, reg1: Registro, now1: DateTime, reg2: Registro, now2: DateTime)
    ensures ConfirmacionAsWritten(k, reg1, now1) == ConfirmacionAsWritten(k, reg2, now2)
  {
  }

  /** ... so for a record stamped "2025-03-10 08:00:00" it differs from the
      intended message, which shows that stamp. */
  lemma ConfirmacionAsWrittenLosesTime(now: DateTime)
    ensures var reg := Registro(Some("2025-03-10 08:00:00"), None);
      ConfirmacionAsWritten(Entrada, reg, now) != Confirmacion(Entrada, reg, now)
  {
    var reg := Registro(Some("2025-03-10 08:00:00"), None);
    assert |ConfirmacionAsWritten(Entrada, reg, now)| != |Confirmacion(Entrada, reg, now)|;
  }

  /** The intended messages of two records with different local times
      differ: the message identifies the record's time. */
  lemma ConfirmacionShowsTime(k: Kind, reg1: Registro, reg2: Registro, now: DateTime)
    requires Truthy(reg1.fechaLocal) && Truthy(reg2.fechaLocal)
    requires reg1.fechaLocal != reg2.fechaLocal
    ensures Confirmacion(k, reg1, now) != Confirmacion(k, reg2, now)
  {
    var p := KindWord(k) + " registrada — ";
    assert Confirmacion(k, reg1, now)[|p|..] != Confirmacion(k, reg2, now)[|p|..];
  }
}
