/**
  * Date-bounded records of the cafeteria app: the celiac medical
  * certificate (`CertificadoCeliaco`) and the carousel image
  * (`ImagenCarrusel`) with the public carousel's date filter.
  */
module Certificates {
  import opened Wrappers
  import Calendar

  datatype Certificate = Certificate(
    persona: nat,
    issuedOn: Calendar.Date,
    expiresOn: Option<Calendar.Date>,
    active: bool)

  /** `esta_vigente`. */
  predicate CertificateCurrent(c: Certificate, today: Calendar.Date) {
    c.active && (c.expiresOn.Some? ==> Calendar.AtOrBefore(today, c.expiresOn.value))
  }

  /** An inactive certificate is never current; an active one without an
      expiry date always is; otherwise it is current up to and including
      its expiry day. */
  lemma CertificateCurrentCases(c: Certificate, today: Calendar.Date)
    ensures !c.active ==> !CertificateCurrent(c, today)
    ensures c.active && c.expiresOn.None? ==> CertificateCurrent(c, today)
    ensures c.active && c.expiresOn == Some(today) ==> CertificateCurrent(c, today)
  {
  }

  /** Once an active certificate is current on some day, it was current on
      every earlier day too. */
  lemma CertificateCurrentEarlier(c: Certificate, d1: Calendar.Date, d2: Calendar.Date)
    requires Calendar.Valid(d1) && Calendar.Valid(d2) && Calendar.AtOrBefore(d1, d2)
    requires c.expiresOn.Some? ==> Calendar.Valid(c.expiresOn.value)
    requires CertificateCurrent(c, d2)
    ensures CertificateCurrent(c, d1)
  {
    if c.expiresOn.Some? {
      Calendar.AtOrBeforeIffOrdinal(d1, d2);
      Calendar.AtOrBeforeIffOrdinal(d2, c.expiresOn.value);
      Calendar.AtOrBeforeIffOrdinal(d1, c.expiresOn.value);
    }
  }

  /** `CertificadoCeliaco.clean`: an expiry date before the issue date is refused. */
  predicate CertificateDatesValid(c: Certificate) {
    !(c.expiresOn.Some? && Calendar.Before(c.expiresOn.value, c.issuedOn))
  }

  /** A certificate whose dates are valid is current on its issue day when
      active. */
  lemma ValidCertificateCurrentWhenIssued(c: Certificate)
    requires Calendar.Valid(c.issuedOn) && CertificateDatesValid(c) && c.active
    requires c.expiresOn.Some? ==> Calendar.Valid(c.expiresOn.value)
    ensures CertificateCurrent(c, c.issuedOn)
  {
    if c.expiresOn.Some? {
      Calendar.BeforeIffSmallerOrdinal(c.expiresOn.value, c.issuedOn);
      Calendar.AtOrBeforeIffOrdinal(c.issuedOn, c.expiresOn.value);
    }
  }

  datatype CarouselImage = CarouselImage(
    title: string,
    active: bool,
    from: Option<Calendar.Date>,
    until: Option<Calendar.Date>,
    order: int)

  /** `ImagenCarrusel.clean`: a start date after the end date is refused. */
  predicate ImageDatesValid(im: CarouselImage) {
    !(im.from.Some? && im.until.Some? && Calendar.Before(im.until.value, im.from.value))
  }

  /** The filter of `carrousel_view`: active, and today within the bounds
      that are set. */
  predicate ImageShown(im: CarouselImage, today: Calendar.Date) {
    im.active &&
    (im.from.None? || Calendar.AtOrBefore(im.from.value, today)) &&
    (im.until.None? || Calendar.AtOrBefore(today, im.until.value))
  }

  /** The images the carousel shows today, kept in stored order. */
  function ShownImages(ims: seq<CarouselImage>, today: Calendar.Date): (r: seq<CarouselImage>)
    ensures forall im :: im in r ==> im in ims && ImageShown(im, today)
    ensures forall im :: im in ims && ImageShown(im, today) ==> im in r
    ensures |r| <= |ims|
  {
    if ims == [] then []
    else
      var rest := ShownImages(ims[..|ims| - 1], today);
      var last := ims[|ims| - 1];
      assert ims == ims[..|ims| - 1] + [last];
      if ImageShown(last, today) then rest + [last] else rest
  }

  /** An image whose dates the validation refuses is never shown on any day. */
  lemma InvalidImageNeverShown(im: CarouselImage, today: Calendar.Date)
    requires !ImageDatesValid(im)
    requires Calendar.Valid(today) && Calendar.Valid(im.from.value) && Calendar.Valid(im.until.value)
    ensures !ImageShown(im, today)
  {
    Calendar.BeforeIffSmallerOrdinal(im.until.value, im.from.value);
    Calendar.AtOrBeforeIffOrdinal(im.from.value, today);
    Calendar.AtOrBeforeIffOrdinal(today, im.until.value);
  }

  /** An active image with no dates is always shown. */
  lemma UnboundedImageAlwaysShown(im: CarouselImage, today: Calendar.Date)
    requires im.active && im.from.None? && im.until.None?
    ensures ImageShown(im, today)
  {
  }
}
