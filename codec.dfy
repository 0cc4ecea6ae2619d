/** The codecs libtiff is configured with, filtered per pixel type, and
    the lookup from codec name to compression scheme
    (lib/ome/files/tiff/Codec.cpp). The configured list is an input:
    what libtiff reports, the same on every call. Scheme numbers are
    the values of the TIFF Compression tag (TIFF 6.0, Section 8, and the
    registered extensions libtiff knows); any other number is a codec
    the library does not know about. */
module Codecs {
  import opened PixelProperties

  type Scheme = nat

  const CompressionNone: Scheme := 1
  const CcittRle: Scheme := 2
  const CcittT4: Scheme := 3
  const CcittT6: Scheme := 4
  const Lzw: Scheme := 5
  const OJpeg: Scheme := 6
  const Jpeg: Scheme := 7
  const AdobeDeflate: Scheme := 8
  const T85: Scheme := 9
  const T43: Scheme := 10
  const Next: Scheme := 32766
  const CcittRleW: Scheme := 32771
  const PackBits: Scheme := 32773
  const ThunderScan: Scheme := 32809
  const It8CtPad: Scheme := 32895
  const It8Lw: Scheme := 32896
  const It8Mp: Scheme := 32897
  const It8Bl: Scheme := 32898
  const PixarFilm: Scheme := 32908
  const PixarLog: Scheme := 32909
  const Deflate: Scheme := 32946
  const Dcs: Scheme := 32947
  const Jbig: Scheme := 34661
  const SgiLog: Scheme := 34676
  const SgiLog24: Scheme := 34677
  const Jp2000: Scheme := 34712
  const Lzma: Scheme := 34925

  datatype Codec = Codec(name: string, scheme: Scheme)

  /** How the per-type filter treats a scheme. */
  datatype Rule = Never | BitOnly | AnyType | Uint8Only

  predicate Bilevel(s: Scheme) {
    s in {CcittRle, CcittT4, CcittT6, CcittRleW, PackBits, T85, T43, Jbig}
  }

  predicate Universal(s: Scheme) {
    s in {Lzw, AdobeDeflate, Deflate, Lzma, Jp2000}
  }

  /** Schemes never offered: no compression (the interface says "none"
      by an absent value), the old-style JPEG kept for decoding only,
      and the schemes no pixel type can use. */
  predicate Excluded(s: Scheme) {
    s in {CompressionNone, OJpeg, Next, ThunderScan, PixarFilm, PixarLog, SgiLog, SgiLog24,
          Dcs, It8CtPad, It8Lw, It8Mp, It8Bl}
  }

  /** The case a scheme falls under in the filter's switch; a scheme
      it does not name is offered for every type. */
  function RuleOf(s: Scheme): (r: Rule)
    ensures r == Never <==> Excluded(s)
    ensures r == BitOnly <==> Bilevel(s)
    ensures r == Uint8Only <==> s == Jpeg
    ensures r == AnyType <==> !Excluded(s) && !Bilevel(s) && s != Jpeg
  {
    if Excluded(s) then Never
    else if Bilevel(s) then BitOnly
    else if s == Jpeg then Uint8Only
    else AnyType
  }

  /** Whether a scheme is offered for a pixel type. */
  predicate Offered(s: Scheme, t: PixelType) {
    match RuleOf(s)
    case Never => false
    case BitOnly => t == Bit
    case Uint8Only => t == UInt8
    case AnyType => true
  }

  /** The codecs of a list offered for a pixel type, in list order. */
  function Filtered(codecs: seq<Codec>, t: PixelType): (r: seq<Codec>)
    ensures |r| <= |codecs|
  {
    if codecs == [] then []
    else
      var rest := Filtered(codecs[..|codecs| - 1], t);
      var c := codecs[|codecs| - 1];
      if Offered(c.scheme, t) then rest + [c] else rest
  }

  function Names(codecs: seq<Codec>): (r: seq<string>)
    ensures |r| == |codecs|
    ensures forall i :: 0 <= i < |codecs| ==> r[i] == codecs[i].name
  {
    if codecs == [] then [] else Names(codecs[..|codecs| - 1]) + [codecs[|codecs| - 1].name]
  }

  /** `a` is `b` with some elements left out, the rest kept in order. */
  ghost predicate Subsequence<T>(a: seq<T>, b: seq<T>) {
    exists f: seq<nat> ::
      |f| == |a| && (forall i :: 0 <= i < |f| ==> f[i] < |b| && a[i] == b[f[i]])
      && (forall i, j :: 0 <= i < j < |f| ==> f[i] < f[j])
  }

  /** The filtered list keeps exactly the offered codecs. */
  lemma {:induction false} FilteredMembers(codecs: seq<Codec>, t: PixelType)
    ensures forall c :: c in Filtered(codecs, t) <==> c in codecs && Offered(c.scheme, t)
  {
    if codecs != [] {
      var init := codecs[..|codecs| - 1];
      FilteredMembers(init, t);
      assert codecs == init + [codecs[|codecs| - 1]];
    }
  }

  /** The filtered list keeps the order of the configured list: it is
      the list with some codecs left out. */
  lemma {:induction false} FilteredInOrder(codecs: seq<Codec>, t: PixelType)
    ensures Subsequence(Filtered(codecs, t), codecs)
  {
    if codecs == [] {
      var f: seq<nat> := [];
      assert |f| == |Filtered(codecs, t)|;
    } else {
      var init := codecs[..|codecs| - 1];
      var c := codecs[|codecs| - 1];
      assert codecs == init + [c];
      FilteredInOrder(init, t);
      SubsequenceExtend(Filtered(init, t), init, c);
    }
  }

  /** A subsequence stays one when the list grows by an element, and
      when both grow by the same element. */
  lemma SubsequenceExtend<T>(a: seq<T>, b: seq<T>, x: T)
    requires Subsequence(a, b)
    ensures Subsequence(a, b + [x]) && Subsequence(a + [x], b + [x])
  {
    var f: seq<nat> :| |f| == |a| && (forall i :: 0 <= i < |f| ==> f[i] < |b| && a[i] == b[f[i]])
                        && (forall i, j :: 0 <= i < j < |f| ==> f[i] < f[j]);
    assert forall i :: 0 <= i < |f| ==> f[i] < |b + [x]| && a[i] == (b + [x])[f[i]];
    var g := f + [|b|];
    assert forall i :: 0 <= i < |g| ==> g[i] < |b + [x]| && (a + [x])[i] == (b + [x])[g[i]];
    assert forall i, j :: 0 <= i < j < |g| ==> g[i] < g[j];
  }

  /** What each pixel type is offered. */
  lemma FilterRules(c: Codec, t: PixelType)
    ensures c.scheme == CompressionNone ==> !Offered(c.scheme, t)
    ensures Bilevel(c.scheme) ==> (Offered(c.scheme, t) <==> t == Bit)
    ensures Universal(c.scheme) ==> Offered(c.scheme, t)
    ensures c.scheme == Jpeg ==> (Offered(c.scheme, t) <==> t == UInt8)
    ensures Excluded(c.scheme) ==> !Offered(c.scheme, t)
    ensures !Excluded(c.scheme) && !Bilevel(c.scheme) && c.scheme != Jpeg ==> Offered(c.scheme, t)
  {
  }

  /** The names offered for a pixel type are those of the offered
      codecs: never the "none" codec, bilevel codecs only for bits,
      JPEG only for 8-bit unsigned data, and the general-purpose
      codecs for every type. */
  lemma OfferedNames(codecs: seq<Codec>, t: PixelType, n: string)
    ensures n in Names(Filtered(codecs, t)) <==> exists c :: c in codecs && c.name == n && Offered(c.scheme, t)
  {
    FilteredMembers(codecs, t);
    var r := Filtered(codecs, t);
    if n in Names(r) {
      var i :| 0 <= i < |r| && Names(r)[i] == n;
      assert r[i] in r;
    }
    if exists c :: c in codecs && c.name == n && Offered(c.scheme, t) {
      var c :| c in codecs && c.name == n && Offered(c.scheme, t);
      var i :| 0 <= i < |r| && r[i] == c;
      assert Names(r)[i] == n;
    }
  }

  /** The scheme of the first codec with a name, or no compression. */
  function SchemeOf(codecs: seq<Codec>, name: string): (s: Scheme)
  {
    if codecs == [] then CompressionNone
    else if codecs[0].name == name then codecs[0].scheme
    else SchemeOf(codecs[1..], name)
  }

  /** `SchemeOf` finds the first codec of that name. */
  lemma {:induction false} SchemeOfFirst(codecs: seq<Codec>, name: string)
    ensures (forall i :: 0 <= i < |codecs| ==> codecs[i].name != name) ==> SchemeOf(codecs, name) == CompressionNone
    ensures forall i :: 0 <= i < |codecs| && codecs[i].name == name && (forall j :: 0 <= j < i ==> codecs[j].name != name)
              ==> SchemeOf(codecs, name) == codecs[i].scheme
  {
    if codecs != [] {
      SchemeOfFirst(codecs[1..], name);
      forall i | 0 <= i < |codecs| && codecs[i].name == name && (forall j :: 0 <= j < i ==> codecs[j].name != name)
        ensures SchemeOf(codecs, name) == codecs[i].scheme
      {
        if i > 0 {
          assert codecs[0].name != name;
          assert codecs[1..][i - 1] == codecs[i];
          assert forall j :: 0 <= j < i - 1 ==> codecs[1..][j].name != name by {
            forall j | 0 <= j < i - 1 ensures codecs[1..][j].name != name {
              assert codecs[1..][j] == codecs[j + 1];
            }
          }
        }
      }
      if forall i :: 0 <= i < |codecs| ==> codecs[i].name != name {
        assert forall i :: 0 <= i < |codecs[1..]| ==> codecs[1..][i].name != name by {
          forall i | 0 <= i < |codecs[1..]| ensures codecs[1..][i].name != name {
            assert codecs[1..][i] == codecs[i + 1];
          }
        }
      }
    }
  }

  /** A codec appended after the others is found only when none of
      them has its name. */
  lemma {:induction false} SchemeOfAppend(codecs: seq<Codec>, c: Codec, name: string)
    ensures SchemeOf(codecs + [c], name) ==
      if exists i :: 0 <= i < |codecs| && codecs[i].name == name then SchemeOf(codecs, name)
      else if c.name == name then c.scheme else CompressionNone
  {
    if codecs != [] {
      assert (codecs + [c])[1..] == codecs[1..] + [c];
      SchemeOfAppend(codecs[1..], c, name);
      if codecs[0].name != name {
        if exists i :: 0 <= i < |codecs[1..]| && codecs[1..][i].name == name {
          var i :| 0 <= i < |codecs[1..]| && codecs[1..][i].name == name;
          assert codecs[i + 1].name == name;
        }
        if exists i :: 0 <= i < |codecs| && codecs[i].name == name {
          var i :| 0 <= i < |codecs| && codecs[i].name == name;
          assert codecs[1..][i - 1].name == name;
        }
      }
    } else {
      assert [] + [c] == [c];
    }
  }

  /** The name-to-codec map `getCodecScheme` builds: `std::map::insert`
      keeps the first codec inserted under each name. */
  function FirstByName(codecs: seq<Codec>): (m: map<string, Codec>)
  {
    if codecs == [] then map[]
    else
      var m := FirstByName(codecs[..|codecs| - 1]);
      var c := codecs[|codecs| - 1];
      if c.name in m then m else m[c.name := c]
  }

  /** Looking a name up in that map agrees with `SchemeOf`. */
  lemma {:induction false} FirstByNameLookup(codecs: seq<Codec>, name: string)
    ensures name in FirstByName(codecs) <==> exists i :: 0 <= i < |codecs| && codecs[i].name == name
    ensures (if name in FirstByName(codecs) then FirstByName(codecs)[name].scheme else CompressionNone)
            == SchemeOf(codecs, name)
  {
    if codecs != [] {
      var init := codecs[..|codecs| - 1];
      var c := codecs[|codecs| - 1];
      assert codecs == init + [c];
      FirstByNameLookup(init, name);
      SchemeOfAppend(init, c, name);
      FirstByNameNames(init);
      if exists i :: 0 <= i < |codecs| && codecs[i].name == name {
        var i :| 0 <= i < |codecs| && codecs[i].name == name;
        if i < |init| {
          assert init[i].name == name;
        }
      }
    }
  }

  lemma {:induction false} FirstByNameNames(codecs: seq<Codec>)
    ensures forall n :: n in FirstByName(codecs) <==> exists i :: 0 <= i < |codecs| && codecs[i].name == n
  {
    if codecs != [] {
      var init := codecs[..|codecs| - 1];
      var c := codecs[|codecs| - 1];
      FirstByNameNames(init);
      forall n ensures n in FirstByName(codecs) <==> exists i :: 0 <= i < |codecs| && codecs[i].name == n {
        if exists i :: 0 <= i < |init| && init[i].name == n {
          var i :| 0 <= i < |init| && init[i].name == n;
          assert codecs[i].name == n;
        }
        if exists i :: 0 <= i < |codecs| && codecs[i].name == n {
          var i :| 0 <= i < |codecs| && codecs[i].name == n;
          if i < |init| {
            assert init[i].name == n;
          }
        }
      }
    }
  }

  /** The memoised tables of Codec.cpp, filled from the configured
      codecs on first use. */
  class CodecRegistry {
    /** What libtiff reports as configured. */
    const configured: seq<Codec>
    /** `getCodecs`' static list. */
    var codecs: seq<Codec>
    /** `getCodecNames()`' static list. */
    var names: seq<string>
    /** `getCodecNames(pixeltype)`' static map. */
    var byType: map<PixelType, seq<string>>
    /** `getCodecScheme`'s static map. */
    var byName: map<string, Codec>

    /** Every table is either not filled yet or holds what it is
        computed from. */
    ghost predicate Valid()
      reads this
    {
      && (codecs == [] || codecs == configured)
      && (names == [] || names == Names(configured))
      && (forall t :: t in byType ==> byType[t] == Names(Filtered(configured, t)))
      && (byName == map[] || byName == FirstByName(configured))
    }

    constructor(reported: seq<Codec>)
      ensures Valid() && configured == reported
      ensures codecs == [] && names == [] && byType == map[] && byName == map[]
    {
      configured := reported;
      codecs, names, byType, byName := [], [], map[], map[];
    }

    /** `getCodecs`: copies the configured list when the table is empty. */
    method GetCodecs() returns (r: seq<Codec>)
      requires Valid()
      modifies this
      ensures Valid() && r == configured && codecs == configured
      ensures names == old(names) && byType == old(byType) && byName == old(byName)
    {
      if codecs == [] {
        var i := 0;
        while i < |configured|
          invariant 0 <= i <= |configured| && codecs == configured[..i]
          invariant names == old(names) && byType == old(byType) && byName == old(byName)
        {
          codecs := codecs + [configured[i]];
          i := i + 1;
        }
        assert configured[..i] == configured;
      }
      r := codecs;
    }

    /** `getCodecNames()`: every configured codec's name, in order. */
    method GetCodecNames() returns (r: seq<string>)
      requires Valid()
      modifies this
      ensures Valid() && r == Names(configured)
      ensures byType == old(byType) && byName == old(byName)
    {
      if names == [] {
        var cs := GetCodecs();
        var i := 0;
        while i < |cs|
          invariant 0 <= i <= |cs| && names == Names(cs[..i])
          invariant cs == configured && codecs == configured
          invariant byType == old(byType) && byName == old(byName)
        {
          assert cs[..i + 1][..i] == cs[..i];
          names := names + [cs[i].name];
          i := i + 1;
        }
        assert cs[..i] == cs;
      }
      r := names;
    }

    /** The names of the codecs offered for a pixel type. */
    static method FilterNames(cs: seq<Codec>, t: PixelType) returns (r: seq<string>)
      ensures r == Names(Filtered(cs, t))
    {
      r := [];
      var i := 0;
      while i < |cs|
        invariant 0 <= i <= |cs| && r == Names(Filtered(cs[..i], t))
      {
        assert cs[..i + 1][..i] == cs[..i];
        if Offered(cs[i].scheme, t) {
          r := r + [cs[i].name];
        }
        i := i + 1;
      }
      assert cs[..i] == cs;
    }

    /** `getCodecNames(pixeltype)`: computed once per pixel type and
        remembered; later calls return the remembered list. */
    method GetCodecNamesFor(t: PixelType) returns (r: seq<string>)
      requires Valid()
      modifies this
      ensures Valid() && r == Names(Filtered(configured, t))
      ensures byType == old(byType)[t := r]
      ensures t in old(byType) ==> byType == old(byType)
      ensures names == old(names) && byName == old(byName)
    {
      if t in byType {
        return byType[t];
      }
      var cs := GetCodecs();
      r := FilterNames(cs, t);
      byType := byType[t := r];
    }

    /** `getCodecScheme(name)`: the scheme of the first configured codec
        with that name, or no compression when there is none. */
    method GetCodecScheme(name: string) returns (s: Scheme)
      requires Valid()
      modifies this
      ensures Valid() && s == SchemeOf(configured, name)
      ensures names == old(names) && byType == old(byType)
    {
      if byName == map[] {
        var cs := GetCodecs();
        var i := 0;
        while i < |cs|
          invariant 0 <= i <= |cs| && byName == FirstByName(cs[..i])
          invariant cs == configured && codecs == configured
          invariant names == old(names) && byType == old(byType)
        {
          assert cs[..i + 1][..i] == cs[..i];
          if cs[i].name !in byName {
            byName := byName[cs[i].name := cs[i]];
          }
          i := i + 1;
        }
        assert cs[..i] == cs;
      }
      s := CompressionNone;
      if name in byName {
        s := byName[name].scheme;
      }
      FirstByNameLookup(configured, name);
    }
  }
}
