/**
 * A chain of doublings and additions, with the slope of every line, which shows that
 * 0x3086D221A7D46BCDE86C90E49284EB15 * G = 0xE4437ED6010E88286F547FA90ABFE4C3 * Endo(G).
 * The digits are the joint sparse form of the two multipliers.
 */
module EndoChain {
  import opened Arith
  import opened Field
  import opened Curve
  import opened Generator
  import opened EndoMap

  /** The second point of the chain. */
  function K(): CurvePoint
  {
    Neg(Endo(G()))
  }

  /** (x, y) is a*G + b*K. */
  ghost predicate Stands(x: int, y: int, a: int, b: int)
  {
    M(x) == x && M(y) == y && OnCurve(Affine(x, y)) && Affine(x, y) == CurveAdd(Mul(a, G()), Mul(b, K()))
  }

  // The conditions below are meant for given numbers. For these the levels are peeled off, for unknown
  // numbers only one or two are, which keeps the products modulo p out of sight.

  ghost predicate At(levels: nat, x: int, y: int, a: int, b: int)
    decreases levels, a
  {
    if levels > 0 then At(levels - 1, x, y, a, b) else Stands(x, y, a, b)
  }

  lemma {:induction false} AtMeans(levels: nat, x: int, y: int, a: int, b: int)
    ensures At(levels, x, y, a, b) <==> Stands(x, y, a, b)
  {
    if levels > 0 { AtMeans(levels - 1, x, y, a, b); }
  }

  /** A line of slope l that meets the curve in (x1, y1), (x2, y2) and, mirrored, in (x3, y3). */
  predicate Line(x1: int, y1: int, x2: int, l: int, x3: int, y3: int)
  {
    && 0 <= x3 < P && 0 <= y3 < P
    && (l * l - x1 - x2 - x3) % P == 0
    && (l * (x1 - x3) - y1 - y3) % P == 0
  }

  predicate IsChord(levels: nat, x1: int, y1: int, x2: int, y2: int, l: int, x3: int, y3: int)
    decreases levels, l
  {
    if levels > 0 then IsChord(levels - 1, x1, y1, x2, y2, l, x3, y3)
    else x1 != x2 && (l * (x2 - x1) - (y2 - y1)) % P == 0 && Line(x1, y1, x2, l, x3, y3)
  }

  predicate IsTangent(levels: nat, x: int, y: int, l: int, x3: int, y3: int)
    decreases levels, l
  {
    if levels > 0 then IsTangent(levels - 1, x, y, l, x3, y3)
    else 0 < y < P && (2 * (l * y) - 3 * (x * x)) % P == 0 && Line(x, y, x, l, x3, y3)
  }

  lemma {:induction false} Peel(levels: nat, x1: int, y1: int, x2: int, y2: int, l: int, x3: int, y3: int)
    ensures IsChord(levels, x1, y1, x2, y2, l, x3, y3) == IsChord(0, x1, y1, x2, y2, l, x3, y3)
    ensures IsTangent(levels, x1, y1, l, x3, y3) == IsTangent(0, x1, y1, l, x3, y3)
  {
    if levels > 0 { Peel(levels - 1, x1, y1, x2, y2, l, x3, y3); }
  }

  lemma Zero(e: int, f: int)
    requires (e - f) % P == 0
    ensures M(e) == M(f)
  {
    MIs(e - f);
    SmallResidues();
    Cong(e - f, 0, f, f);
  }

  lemma LineThird(x1: int, y1: int, x2: int, l: int, x3: int, y3: int)
    requires Line(x1, y1, x2, l, x3, y3)
    ensures M(x3) == x3 == M(l * l - x1 - x2) && M(y3) == y3 == M(l * (x1 - (l * l - x1 - x2)) - y1)
  {
    var t := l * l - x1 - x2;
    ResidueRange(x3);
    ResidueRange(y3);
    Zero(t, x3);
    Zero(l * (x1 - x3) - y1, y3);
    Cong(x1, x1, x3, t);
    Cong(l, l, x1 - x3, x1 - t);
    Cong(l * (x1 - x3), l * (x1 - t), y1, y1);
  }

  /** The sum of the points that stand at two places of the chain. */
  lemma Sums(a: int, b: int, c: int, d: int)
    requires GroupFacts()
    ensures CurveAdd(CurveAdd(Mul(a, G()), Mul(b, K())), CurveAdd(Mul(c, G()), Mul(d, K())))
      == CurveAdd(Mul(a + c, G()), Mul(b + d, K()))
  {
    hide GroupFacts, CurveAdd, Mul, OnCurve, K, G;
    Interchange(Mul(a, G()), Mul(b, K()), Mul(c, G()), Mul(d, K()));
    MulAdd(a, c, G());
    MulAdd(b, d, K());
  }

  lemma Plus(x1: int, y1: int, a: int, b: int, x2: int, y2: int, c: int, d: int, l: int, x3: int, y3: int)
    returns (x: int, y: int)
    requires GroupFacts() && At(4, x1, y1, a, b) && At(4, x2, y2, c, d) && IsChord(4, x1, y1, x2, y2, l, x3, y3)
    ensures x == x3 && y == y3 && At(4, x, y, a + c, b + d)
  {
    hide GroupFacts, CurveAdd, Mul, OnCurve, K, G, Line, IsPrime, IsSlope;
    Prime();
    x, y := x3, y3;
    Peel(4, x1, y1, x2, y2, l, x3, y3);
    AtMeans(4, x1, y1, a, b);
    AtMeans(4, x2, y2, c, d);
    AtMeans(4, x3, y3, a + c, b + d);
    var p: CurvePoint := Affine(x1, y1);
    var q: CurvePoint := Affine(x2, y2);
    Zero(l * (x2 - x1), y2 - y1);
    ChordIs(p, q, l);
    SumBySlope(p, q, l);
    LineThird(x1, y1, x2, l, x3, y3);
    Sums(a, b, c, d);
  }

  /** For a chord, one of the two equations of the slope is enough. */
  lemma ChordIs(p: CurvePoint, q: CurvePoint, l: int)
    requires IsPrime(P) && p.Affine? && q.Affine? && p.x != q.x && M(l * (q.x - p.x)) == M(q.y - p.y)
    ensures IsSlope(p, q, l)
  {
    hide IsPrime, Slope;
    SlopeLaw(p, q);
    var k, d := Slope(p, q), q.x - p.x;
    Distinct(p.x, q.x);
    Swap(k, d);
    Swap(l, d);
    Cancel(d, k, l);
    Cong(k, l, p.y + q.y, p.y + q.y);
  }

  lemma Twice(x1: int, y1: int, a: int, b: int, l: int, x3: int, y3: int) returns (x: int, y: int)
    requires GroupFacts() && At(4, x1, y1, a, b) && IsTangent(4, x1, y1, l, x3, y3)
    ensures x == x3 && y == y3 && At(4, x, y, 2 * a, 2 * b)
  {
    hide GroupFacts, CurveAdd, Mul, OnCurve, K, G, Line, IsPrime, IsSlope;
    Prime();
    x, y := x3, y3;
    Peel(4, x1, y1, x1, y1, l, x3, y3);
    AtMeans(4, x1, y1, a, b);
    AtMeans(4, x3, y3, 2 * a, 2 * b);
    var p: CurvePoint := Affine(x1, y1);
    Zero(2 * (l * y1), 3 * (x1 * x1));
    TangentIs(p, l);
    SumBySlope(p, p, l);
    LineThird(x1, y1, x1, l, x3, y3);
    Sums(a, b, a, b);
  }

  lemma TangentIs(p: CurvePoint, l: int)
    requires IsPrime(P) && p.Affine? && 0 < p.y < P && M(2 * (l * p.y)) == M(3 * (p.x * p.x))
    ensures !Opposite(p, p) && IsSlope(p, p, l)
  {
    hide IsPrime, OnCurve;
    SmallResidues();
    ResidueRange(p.y);
    ResidueRange(2);
    if M(p.y + p.y) == 0 { NoZeroDivisors(2, p.y); }
    assert l * (p.x - p.x) == 0;
    assert l * (p.y + p.y) == 2 * (l * p.y);
  }

  /** The mirror image of a place. */
  lemma Minus(x: int, y: int, a: int, b: int)
    requires GroupFacts() && At(4, x, y, a, b) && 0 < y < P
    ensures At(4, x, P - y, -a, -b)
  {
    hide GroupFacts, CurveAdd, Mul, OnCurve, K, G, IsPrime;
    Prime();
    AtMeans(4, x, y, a, b);
    AtMeans(4, x, P - y, -a, -b);
    var p: CurvePoint := Affine(x, y);
    MIs(0 - y);
    DivModUnique(0 - y, P, -1, P - y);
    assert Neg(p).Affine? && Neg(p).x == x && Neg(p).y == P - y;
    NegSum(Mul(a, G()), Mul(b, K()));
    MulNeg(a, G());
    MulNeg(b, K());
  }

  /** Opposite places cancel. */
  lemma Cancelled(x: int, y: int, a: int, b: int, c: int, d: int)
    requires GroupFacts() && At(4, x, y, a, b) && At(4, x, P - y, c, d)
    ensures CurveAdd(Mul(a + c, G()), Mul(b + d, K())) == Infinity
  {
    hide GroupFacts, Mul, K, G, IsPrime;
    AtMeans(4, x, y, a, b);
    AtMeans(4, x, P - y, c, d);
    Sums(a, b, c, d);
    MIs(P);
    DivModUnique(P, P, 1, 0);
    SmallResidues();
  }

  // ---- the digits ----

  // x coordinates of K, G + K and G - K, and y of G + K
  const KX: int := 0xBCACE2E99DA01887AB0102B696902325872844067F15E98DA7BBA04400B88FCB
  const SX: int := 0x93C4D65B4CC437BE9F2B0AA72325BA6CE5015022596E21F2EA6EADAE415A87B0
  const SY: int := 0xDE87653B1778D37F77E9403692BD956F5D419B1B625309CA50730FBC03706352
  const TX: int := 0xC994B69768832BCBFF5E9AB39AE8D1D3763BBF1E531BED98FE51DE5EE84F50FB

  lemma GAt()
    requires GroupFacts()
    ensures At(4, GX, GY, 1, 0) && At(4, GX, P - GY, -1, 0)
  {
    hide GroupFacts, CurveAdd, Mul, K, IsPrime;
    GeneratorOnCurve();
    GeneratorIs();
    MulOne(G());
    MulOne(K());
    AddInfinity(G());
    AtMeans(4, GX, GY, 1, 0);
    Minus(GX, GY, 1, 0);
  }

  lemma KAt()
    requires GroupFacts()
    ensures At(4, KX, P - GY, 0, 1) && At(4, KX, GY, 0, -1)
  {
    hide GroupFacts, CurveAdd, Mul, IsPrime;
    GeneratorOnCurve();
    GeneratorIs();
    KIs();
    MulOne(G());
    MulOne(K());
    AddInfinity(K());
    AtMeans(4, KX, P - GY, 0, 1);
    Minus(KX, P - GY, 0, 1);
  }

  lemma KIs()
    ensures K().Affine? && K().x == KX && K().y == P - GY
  {
    hide OnCurve;
    GeneratorIs();
    MIs(0 - GY);
    DivModUnique(0 - GY, P, -1, P - GY);
    BetaTimesG();
  }

  lemma BetaTimesG()
    ensures M(BETA * GX) == KX
  {
    BetaIs();
    MIs(BETA * GX);
    ProductModP();
  }

  lemma ProductModP()
    ensures (BETA_VALUE * GX) % P == KX
  {
  }

  lemma SAt()
    requires GroupFacts()
    ensures At(4, SX, SY, 1, 1) && At(4, SX, P - SY, -1, -1)
  {
    hide GroupFacts, At;
    GAt();
    KAt();
    var x, y := Plus(GX, GY, 1, 0, KX, P - GY, 0, 1,
      0xC8412EA8AC3C6EBC70CE8EF6109B6787C60DA33A05491FE674BA1CF44D13CC1E, SX, SY);
    Minus(SX, SY, 1, 1);
  }

  lemma TAt()
    requires GroupFacts()
    ensures At(4, TX, P - GY, 1, -1) && At(4, TX, GY, -1, 1)
  {
    hide GroupFacts, At;
    GAt();
    KAt();
    var x, y := Plus(GX, GY, 1, 0, KX, GY, 0, -1, 0, TX, P - GY);
    Minus(TX, P - GY, 1, -1);
  }

  // ---- the chain ----

  const X1: int := 0x72A0F442F17A2A64CFABE8B33AB9DDDA9E9B2AA08F7A7DF1CA2E08C3D58500D9
  const Y1: int := 0xA378E61FE0CEF24A9FC6981EAFCA41906A816FB0B3DF862FA580E543964926C9

  lemma Chain1(a: int, b: int) returns (x: int, y: int)
    requires GroupFacts() && At(4, KX, P - GY, a, b)
    ensures x == X1 && y == Y1 && At(4, x, y, 65536 * a + 12422, 65536 * b - 7100)
  {
    hide GroupFacts, At;
    GAt();
    KAt();
    SAt();
    TAt();
    x, y := KX, P - GY;
    x, y := Twice(x, y, a, b,
      0x7DF05FEAA87293A98919FB7954CA25DFE4CF7571715512745288CD5285CBCC89,
      0xC360A6D0B34CE6DF4135EE7D59F87B33D2FAD8CCE43837EF3E995B6ED89250E1,
      0xE51E970159C23CC65C3A7BE6B99315110809CD9ACD992F1EDC9BCE55AF301705);
    x, y := Twice(x, y, 2 * a, 2 * b,
      0x53577AA6B6CE62C27BB968C9387620B6112EA60E4E7EA6E65B54848B0AE78DD3,
      0x1B77921F0D3829075C45FAF8B90E324B714C30B5AB4871275BDE5B333B306100,
      0xAE1266C15F2BAA48A9BD1DF6715AEBB7269851CC404201BF30168422B88C630D);
    x, y := Twice(x, y, 4 * a, 4 * b,
      0x3F18B810595005F65D4C27D08B8189C91923A34CE3E6E569A9BB0DE896B2313A,
      0x47AB650342D401A7AA77840F29E24892B4FF77152425765703E947742446CC73,
      0xA3B25758BEAC66B6D6C2F7D5ECD2EC4B3D1DEC2945A489E84A25D3479342132B);
    x, y := Plus(x, y, 8 * a, 8 * b, TX, P - GY, 1, -1,
      0x7D492B02F8F15F1C8681AFC23273FBF52B43889E16526017FECC2DFE390DF860,
      0xFDE9F0A5FC339C4C9EDE87499CE905CF3C83F4855630B904F12E02E421E0A94D,
      0x8378EB19537D0DA80EC984BE76BF2085490D17368EE0AB492FD8F179E46375CA);
    x, y := Twice(x, y, 8 * a + 1, 8 * b - 1,
      0x8FF784B17BEECA1F136F0311C7E1507792C31D3F7407C394B8735682BB608742,
      0x3A1C498AE2AF307A8CBB4A5F301E7348B1C0E22D89AA583E376DB54A920AD910,
      0xF7DF167A0D8604C4F13D574B3B5A8265F7E4C3CD2C36DABBD5984C797584FD41);
    x, y := Plus(x, y, 16 * a + 2, 16 * b - 2, GX, GY, 1, 0,
      0x571AA6991EF1F6844A368B491139ED9F32024E706F71D4B58BB72CC00B11E40E,
      0x8F53BC847DB1B710EB32FAF14F4399CA7890169C923ACEBB2594044479D97613,
      0x20ED64663E88025E19280EC14A530B40A61626318FAB8A53F6DDB2C5342248A5);
    x, y := Twice(x, y, 16 * a + 3, 16 * b - 2,
      0x5EE7AB06EB5F43FE11DFD0BBB39C2E5139049B10F8080B768D47A86DC7A00EBD,
      0xFA4C95718CB89C28C86EABC327788CFB4D351DD711B4930A57325E982B14DCF0,
      0x9AB7E78B0293213B20C2FC84DDC3400F395C1752A284AF750C196D2A3B7E998C);
    x, y := Twice(x, y, 32 * a + 6, 32 * b - 4,
      0x71765DE1B102793CFDAFA72CB7167E92EAAFAFD69AF307714468EBF4D6B20E6E,
      0x79A7C3A91BB03600869B4491A83A4C30F58CE65B51D3497834379B87B92D72B3,
      0xE8234514E23EC86ADFF2F1635A332183D63C8848EAF73F458A314E99784CAA1A);
    x, y := Plus(x, y, 64 * a + 12, 64 * b - 8, KX, P - GY, 0, 1,
      0x27CBC938CDBE25571BB5BF5207E88134845885348A0B597C1CB38770B053B188,
      0x926ECE93230F997BF01DECEA7E5D634C76C4D5AA0AEA4EC8EA96F4B5EFC75C26,
      0x6DFB01961731D6AD74113429C099B11DEA138FCB123721EECE5670CE3AED0CA5);
    x, y := Twice(x, y, 64 * a + 12, 64 * b - 7,
      0x8EBFF27598FD2F1750F25937345A0564FFFEE9D3DCD8529F560E25E7AA0F9F4A,
      0xC55ADE76F1682598C571BD0699F40D94AA802A49AD8DAEAE9C8B6B35C1B698F8,
      0xAC9DE2BA9D73507BE709380E91681B10B64E4F2CBB20DC609B2037856600EC63);
    x, y := Twice(x, y, 128 * a + 24, 128 * b - 14,
      0x19F9706D4D7269FA852F4181E02646F1A212C1EAAA4C8D030921751802C0612,
      0x74F2B748A6F3408728AC2BEBEE373D4D9D4B14580E1A29277E20BA7271C2C4D2,
      0x5C90620E7BEC4B0B07FD2C8D3D9019641D3F3B3CB079FD0FCD3AD0905F146998);
    x, y := Twice(x, y, 256 * a + 48, 256 * b - 28,
      0x991B34607C8B73E244FE530A1DC033342F0418BC767CFFD009A69A282FFB7615,
      0x35825048DE788396C8177A5CC68525F2E70154EEF4BBC5C5C9798D8B2A858F61,
      0x15654D7911E3C658DBE141DABF6E60B657977C22C20BFEDEA522637D9C86095F);
    x, y := Plus(x, y, 512 * a + 96, 512 * b - 56, GX, GY, 1, 0,
      0x68124D5088945D720C1F63D9E72097FA12B46561D92D2EA1A6BC69F57A898C6B,
      0xC6DDE4A050A18BE76D9238F3F150E369AC76F06823CC5D69B156CC766047F674,
      0x51302418E1AA536697628114FD56937676D572D5A98913C13BFBBAF6ED089B06);
    x, y := Twice(x, y, 512 * a + 97, 512 * b - 56,
      0x354682E469F123962559679A32FED2359E10A84833AA493A58F2180B630628A6,
      0x1812E06F908FE0CA29D536E5654FA68C8FC258C043E338807A34650F99C6F4B9,
      0xE31736CB54668084322A634C094C33858DFE82BD885AB17881C1933BA179C8BF);
    x, y := Plus(x, y, 1024 * a + 194, 1024 * b - 112, KX, P - GY, 0, 1,
      0x16D44BBFDB64A9CEAA262294E4EB3AC154E542706D0CFD4987CDA839CB0BA4A8,
      0xE0FB339D3AF1C9D4117D723B3CBB91097AF32F29FA7EDD59E579C10FBFB79492,
      0xE72B0ED96D30FA3E987DF02E76512BC7256AC307F032D35E458CEA9069FF677A);
    x, y := Twice(x, y, 1024 * a + 194, 1024 * b - 111,
      0x6D72D1D7F12A83BF88FAB1FE8ADA3839C0A7213C7AF72DDDC6538332EEA55F11,
      0xF6C4D080197EF886B4BC291A30C71FC5EF004375B28D4D5AAF8F59A5908CDD70,
      0x6D7FD2455216BCA9BE74ABA905DBEBB6D922608820F92AA364014E4A8202CD4E);
    x, y := Twice(x, y, 2048 * a + 388, 2048 * b - 222,
      0xCE1174750BEF4E0205D08BCE8AC1894592E8425A3C946C99C37D3ECF03099D60,
      0x19D18ED10B948B302571227570CDF9BD4B4B597E9DDFA8B2214C0854D407C787,
      0x5DA2B79A2F657BBE33643F4FAB01D519AC1B9B212D82E868E2295A2A94796DFB);
    x, y := Twice(x, y, 4096 * a + 776, 4096 * b - 444,
      0xB889803DD1EBE0F5FC1FD1F3D10453DD13F058791842DD0AF4DA4993D8BE9DE4,
      0xC2C32EC4AF8E638142E31CE627CE282382801D6C0A487E07B7129E8498C0C8D0,
      0x9E1DEBBA47E2975994DCA637B5C6BD833DB076EEB802EB4AC03AC0CF4CE6143A);
    x, y := Twice(x, y, 8192 * a + 1552, 8192 * b - 888,
      0xD2FDC60B3B1C83013C40D3A5196F679DAE9DF67A97BAFA77695235D4E87B1F2B,
      0x86743F6ABA11BE3F125F99A505C1012327F224668D39CB7D0751E6BFB57B3225,
      0xDEDFE1D745B97C0E850FBA80EE56A3135F1EF3963FA418BA31024B1BD214CA24);
    x, y := Plus(x, y, 16384 * a + 3104, 16384 * b - 1776, SX, SY, 1, 1,
      0x2FD6DEA36A0F6EA51124E667DBD436259E69E3121D33181D31E987E68F2A7A16,
      0xF37B9507F5EA29975916DAC9BEA5EC22C2A85FC7DDE2866C3AF3E94ECE60CE93,
      0x9FE65E49CCABF58382536795074AAA92CB1FE3AE4F2A775B53AFC7087D80D8E2);
    x, y := Twice(x, y, 16384 * a + 3105, 16384 * b - 1775,
      0xD1B552B951315009401E834D73E044FB764D535987D09B80E0F53ED43DAAC636,
      0x7A33CA397D668ECD3016AC6585126622A51E30F98D1ACBA1FBF26380C580221B,
      0x5DCF8C072038B1C06157A4F618D8EC298601D18D1719430066FADFC7DFDED1F5);
    x, y := Plus(x, y, 32768 * a + 6210, 32768 * b - 3550, GX, GY, 1, 0,
      0x37420D6E42A068B163A5D372139E07891379ABDC714B0129F22702CB6390F079,
      0xE8B6ACB8B6FDCCD6ECABC2C907B230013C4BEBA3DCFA6F8A699A4256C10F81CB,
      0xA5FF8621E0D947006825B31DDB2867962749F6C8495CCE5805790E2995C4CE48);
    x, y := Twice(x, y, 32768 * a + 6211, 32768 * b - 3550,
      0x4F135E2AA9820E37BF093E12223542734BC65C57493200E629CFF88F8F3312C2,
      0x72A0F442F17A2A64CFABE8B33AB9DDDA9E9B2AA08F7A7DF1CA2E08C3D58500D9,
      0xA378E61FE0CEF24A9FC6981EAFCA41906A816FB0B3DF862FA580E543964926C9);
  }

  const X2: int := 0x483F1D72750D753E43A19C8B7C1B91882B2DCEEFBDF3C999CF68B754DE524DE
  const Y2: int := 0x4F4384C25498243681348474ED25E8AF892EAFB8B92709A1F92B27084BFF7A96

  lemma Chain2(a: int, b: int) returns (x: int, y: int)
    requires GroupFacts() && At(4, X1, Y1, a, b)
    ensures x == X2 && y == Y2 && At(4, x, y, 65536 * a + 53794, 65536 * b - 33066)
  {
    hide GroupFacts, At;
    GAt();
    KAt();
    TAt();
    x, y := X1, Y1;
    x, y := Twice(x, y, a, b,
      0xF7626EB4AE45F7A839F38EAC862030E30AC7B95B9E4DD62676680EA710D089CE,
      0x29B5C960CD2FB53D4DCB235139921CBBB761EC5AA74850226608776510095F6C,
      0x1A8797D69F7EEE6D9571D5AFAAEA19AFA6C5ACC71570B65ECAF891336C299F2C);
    x, y := Plus(x, y, 2 * a, 2 * b, TX, P - GY, 1, -1,
      0x1D43182C126A83F641EC656EBB5A8D1C9A6E8A94450C2363D2936CC87C6A73D0,
      0x9DEF983585296EBE5E830B27BADF85765EB32E437051C9FBF73CE51107DFA425,
      0x784F5697C6814FA9FD6C8F37CC982D3D215C3CD3A37718FC103A9BB131A25970);
    x, y := Twice(x, y, 2 * a + 1, 2 * b - 1,
      0x244EF2796BF47F6E1588ADCB60AB7149E91FF5458C51B06E274C6B3E94EFB867,
      0x37E50BEEF59141BC48BD38259141F6A905E8154E5655B7FDE73992B8A14C3E89,
      0x53E005378937B2A25FA198EEB01F132CD78595C4D2DBD6B63EAF5528913C6651);
    x, y := Plus(x, y, 4 * a + 2, 4 * b - 2, GX, GY, 1, 0,
      0x935AB4A68777ABBF1B6063DFF42F8D0895C853142A7AEB18454909061F37F08F,
      0xEF25F4CE31D866088C6BC2BBF8707F38EBD362976D5E25AB8DE9B6E7254D6489,
      0xB0E6382C564BF0F09E9F3129DDA72E7F1BEDB2A3D8282684BD1D54B7A4C27A23);
    x, y := Twice(x, y, 4 * a + 3, 4 * b - 2,
      0x378A2BC656EFBAC5175A1D1D80B528B0222324BD66DAB89331FE5A7EC54FBB1A,
      0x880C601B80D7F1D13C1CA7D75619BB927CF6EC5D3F5D30CEA08B00C6E9FCD45C,
      0xBAA05E2913451C0F5887FD6803C9A749F69B14F44BB38BDB4107273AD1418804);
    x, y := Twice(x, y, 8 * a + 6, 8 * b - 4,
      0xEE6099BCD7720FA5423C0A9F6496F42709337B5AAAE4E81FF83F4FE99D94269B,
      0x531C5403233CCC78E35BF673B6B477884E8199A40EB54C788A61A0AFB3412C31,
      0x4673DD0D753444B203D874CAB2B09914742660771D2BF53E734E0460E608E0C9);
    x, y := Plus(x, y, 16 * a + 12, 16 * b - 8, GX, GY, 1, 0,
      0x71405CDDA3E4C8565E6664A0DB0AEB37D0B613A72B736DB3C16C51182E57B70D,
      0x3D5D277AEF045425504DAC4438AB4A3F974D82C4E870F6E1CC71DE17C579ECA8,
      0xF17F57547A512F575C8CD46EB9CBC2A80312B3DF1C76BEDC928902FD7C6203FC);
    x, y := Twice(x, y, 16 * a + 13, 16 * b - 8,
      0x39A5AC47428D605DC9CEB54CDF3F4527E8934647218F4BA461150561801278E7,
      0x6B2ABEA48BED3E2AE060E077CF44EABDA3A90A3AECB96AA3D16B1F7A52ED7B9D,
      0xD763DB10406547871DAD72B17A82A3A32B047C9EE8084B22919DC0E4E38802B6);
    x, y := Twice(x, y, 32 * a + 26, 32 * b - 16,
      0x8B3B3411149E4E0C4E69B9FF0DE96BFBF69EEF16A86A3FCDBA92E9F61F698A82,
      0xC5EEFCA323644CF96000720DF86B45EAE1881EB3281E203DFF11D7F01C78C81E,
      0x78D899916B74B69BA49AB5E51CA753EDC7092BBCB0B1356AA4AB4A714D22FF8);
    x, y := Twice(x, y, 64 * a + 52, 64 * b - 32,
      0xDEDE73C0A709D3EF7123BF0361D258E1B24CB5EB3665A0D202B32D76CFFFD115,
      0x2BFD0C82AE7A945D55C6BF46D14717F39702E7E8FF7BC2B2AE87AAA3FC7F530D,
      0xAEB909D4115479B598E2586C9B2D5464188F88452348A351E62BBAD1557B8C79);
    x, y := Plus(x, y, 128 * a + 104, 128 * b - 64, GX, GY, 1, 0,
      0x69DB46219FB6C9B32D1DE3A30C28BE03960CA55351372C8BC21C56FEEF6C5CBB,
      0x65EA9BBD2944BC80C9F6792D4A6DE4D23401FCD5715971DD709B302E6522878,
      0xD918CB035418DD806254E62019662AF8A988CD77D185108A7985134278A3A226);
    x, y := Twice(x, y, 128 * a + 105, 128 * b - 64,
      0x437F7D4C95FF94E2B259E59B7882F3A5C068876E61A1FC3B306FDE57B1C442D1,
      0x19F9686D12A33533F6945A92EF08F90286E245551553BDD960F7DF217E2936FC,
      0x8E387A2998417622F34B50AF1CDA84BAE434C39EC2533F11FC4EDEB048E2FD1);
    x, y := Plus(x, y, 256 * a + 210, 256 * b - 128, KX, GY, 0, -1,
      0x4F6225B88DC53EBBFFCBC00632F08421ED3FF489C09BDFA5A4D0DCD7324F83D6,
      0xF281D99A6D57CB87C004C183B6ACD9CFB3E7062DDF3A14457A4EA548B2293E5A,
      0xEA2BAA2877E0BA50BF52B052181115D813DA335BBA235CB78F439FEC832011C9);
    x, y := Twice(x, y, 256 * a + 210, 256 * b - 129,
      0x9BE59CD7F71693EE42291470A456642FFB4EEB32C15B0EF8F644D6DF5E00EF5B,
      0xD4AFE48CC908E0142CD660745B0FC9E589078F1A8903AC7FD400BF71E74BA14C,
      0xD0752B7F661D90CD82FF1E13D7D9FE9855FE263FC1634443D0417DE42F953841);
    x, y := Twice(x, y, 512 * a + 420, 512 * b - 258,
      0xF239C8842C696175BB698F4269AF5FDE0A3CB94EFE9E70CAC747B2A729BDB7F2,
      0x4C2EB003EE5B041A20A08574B2A537493B078053373C50374513AC8F219DB747,
      0xC32C4FF39B7CE91642AC52E93A538D419760BFF13F3FF522C0F09021990EF36A);
    x, y := Twice(x, y, 1024 * a + 840, 1024 * b - 516,
      0x851CC9359839C33E24E1BACEE7A48E9FFF37991463C4DEF29C8AD215DE2DEE4F,
      0x74798A89D0C8EFFAB8137200A8859457D084A2A8433F7A18C5B17CB19730A72E,
      0xD6AF1DE923A6D4FCE61E59F4877E0A3DB07DBF19DE7ADB22A5D55C6C49BA1829);
    x, y := Plus(x, y, 2048 * a + 1680, 2048 * b - 1032, TX, P - GY, 1, -1,
      0x2F4694009C2CD2A0E15506B5EC011FE003116CB1070A1D140427A7297AC5D074,
      0xE877117C34D233F54091207651A990CA142876976BFE7C85958D24C4A5B991DD,
      0xA6DDDA251AF7EAA0D513BCCD6E63AB8401DDE31B4A0F6D153C62B38F6CD80BAA);
    x, y := Twice(x, y, 2048 * a + 1681, 2048 * b - 1033,
      0xEFA8199C1332A034284A07B1F781342C82DA64B3140CF277242FACB06B3BC254,
      0x85444610B2715173B5D366E54722F15733C345364C76E39DF541E4A200E4CFAC,
      0x18AF264B91E5EC50176D263B93FF54F2F522D23A3C4D205BD406EA1E188CDD8C);
    x, y := Twice(x, y, 4096 * a + 3362, 4096 * b - 2066,
      0x441F04825F68006CB7FEF789D25B3CEF3E533F235EF832893DCBAEBDD717B428,
      0x9F5FA574FBF5CEB935065EA6EF3BE19527D9B3D70FDF4F36B0B7437E2CAE6CD,
      0xF2421A9A66AE844F6844D7369477A1E313E23EE00ECD60A02803B9590AB29D88);
    x, y := Plus(x, y, 8192 * a + 6724, 8192 * b - 4132, KX, GY, 0, -1,
      0x6673C5BF10C83F9B7B8FC0E5DBF54ABEAAD3B974649301FD401F84E992317110,
      0x61C3303A7533A96739AB966262674B93BBDFD177BE7BF63928D6BB27B8D885A8,
      0xE579C3539E8F8AB9B44313E7CED058FB35AC02987DF005CF33B460AD896606A4);
    x, y := Twice(x, y, 8192 * a + 6724, 8192 * b - 4133,
      0x85EFE5932125EE41EA1778EBE3CFAFFFDFFBFD6C62462CA6E0147DF1A440C3BE,
      0xDF0CBC229488A20DC63EE1C43DD49C426AA7E89B6182D865B2F29613F75DB947,
      0xAC03E2B372B192BAFB8956C95DBBCC38E0D6CA90F172A0B1F2488831B0EEBF72);
    x, y := Twice(x, y, 16384 * a + 13448, 16384 * b - 8266,
      0x818DB4D4498758D44489D4ED632E625A627F8127A47E69C016CA06AA1689D60A,
      0x1326C01817800C71218EC8F5301D2812DAC252E39DFC3119D69A633023DC5DFE,
      0x28DE31436D6C83939BB4863D6E1DC1146DEAE623EE867D43507568DEC078B935);
    x, y := Plus(x, y, 32768 * a + 26896, 32768 * b - 16532, TX, P - GY, 1, -1,
      0x9B4543DA108E008568F9DEE6F3BA4124FE7919B697CC61DA390BB213D13ECB7F,
      0x40043D33CE75787D7902161535E35CB8B77D34EA54C366939BC3BCD9485E0A01,
      0xFA8C3A423DE6293650222B0F618ACAC66C0F8F0F4CA1066B7F36A91A02029702);
    x, y := Twice(x, y, 32768 * a + 26897, 32768 * b - 16533,
      0x887E053B965DCB3FB7964FD8C1A396174CB62C8B3D10D6144C0C00B15CC660D5,
      0x483F1D72750D753E43A19C8B7C1B91882B2DCEEFBDF3C999CF68B754DE524DE,
      0x4F4384C25498243681348474ED25E8AF892EAFB8B92709A1F92B27084BFF7A96);
  }

  const X3: int := 0xBA0C0A0DAE53AA649E3B9F255A62BEF7B7A17A628819CF12B94494C7D1B58440
  const Y3: int := 0xEAF88FD2D0FAD191D84290AEC1132A4A2AB471B26594C79C188F009CF07C2F87

  lemma Chain3(a: int, b: int) returns (x: int, y: int)
    requires GroupFacts() && At(4, X2, Y2, a, b)
    ensures x == X3 && y == Y3 && At(4, x, y, 65536 * a - 22572, 65536 * b + 270)
  {
    hide GroupFacts, At;
    GAt();
    KAt();
    SAt();
    x, y := X2, Y2;
    x, y := Twice(x, y, a, b,
      0x2D09AD7849187E5A4AA0E61A447AAE346419B2D6D1FD9B991BA96605A2C9A967,
      0xB00DCC2BADA4856627D9C09781079D8BC6E38C67A76C289E6571007CB339DE74,
      0x85F5327F30FF2FC936013869A623484746D722CD5A56690840AD63E99D162D33);
    x, y := Plus(x, y, 2 * a, 2 * b, GX, P - GY, -1, 0,
      0x5A9A973C5392594526CD9F9AA5EEACC35BD5FB2A2A0DD686EDAFB12615CFF98A,
      0x2A3385D537A36806877730930CAD1332282AD2AEEE05CE659936073D5D9DFB6B,
      0x50CDA4E219CF7081A10FEF7FD2618FB0B7505212CC043241DD3AB43DC406FCE4);
    x, y := Twice(x, y, 2 * a - 1, 2 * b,
      0xB675DF46F5626F5EF732839F01B6F74B8BFAE19A82940CF2690C544C770E66A5,
      0x1370DA03A8FB2882CEFBB865DF7EA0169186FD90352F76F5E95713DDE834143B,
      0xA8EA463D6A7019D6A32C82272EB207DED9CEDB93E923819131A3470F13C4B3DA);
    x, y := Twice(x, y, 4 * a - 2, 4 * b,
      0xEB667264018F00549D3D83AE654AD0E4896EAD4D232C4D6C1987034ACC95376A,
      0xB94FC5E463C9CE02DD675556EA6BB01523170A16B4297852FFC6C3044737BA4,
      0x383DA26BF580CDF3223163DB213D1AFB4B57284E65A4141FBD0E1F4682FEF89C);
    x, y := Plus(x, y, 8 * a - 4, 8 * b, GX, GY, 1, 0,
      0x8277DCACFA51CF6A88C0B2CD67D3322CD5CFD0B22A209BC71C356BC8599B56E7,
      0xB0746EA0DD6832330C5661ED8DBBDD9E1B53646754DD806AE17DF18BCF632807,
      0x58114A7830FF16D378386C42D0BD513A66E6B0A0C709F946AD2C311FB8CE9531);
    x, y := Twice(x, y, 8 * a - 3, 8 * b,
      0xD7EE1B64C873F94CF3BB779539D150578E39B3FBB2FA1C1CC5EC772E05E5B083,
      0x4EACC39ADF3F3A900FF0A0B8868A096D85702E8CB90065F03A041238F47D204F,
      0xD82E1C014DB1FCF43BC209AD4B27EBFC8CC6952E6AD918B36EAF8E9B19C863E9);
    x, y := Twice(x, y, 16 * a - 6, 16 * b,
      0x2246149FAFA644F173859547AC3171C331D50123F7AAAFC5E24E40FE1A9E616A,
      0x751E6F1A27128E503F6A9BD6F2652B106DAC895B2AA8B8CB2F68B8F1B05AA28D,
      0x83DEB7399B50153F54357ED5E38BC73C5EEDE85280EF29F9E1F58C5C31B656CF);
    x, y := Plus(x, y, 32 * a - 12, 32 * b, GX, GY, 1, 0,
      0x3A7A93A690C6251F7CA7423F3B1AC08D069EA9966087092B2FE02A1DB230CF1A,
      0xD6F6FC5C30CE5B19DFAFA79FCEDD6248F0522B9931EE4CB70A7E6085B6213A39,
      0x82613A780AA0CF99DE9B88961BBD66C6584272177D8B6E6A3E642073E460614B);
    x, y := Twice(x, y, 32 * a - 11, 32 * b,
      0xF40CE960165038517A942B6E283DA580CE0E6CB637533739EB20B36BE5260275,
      0xD182B706F130CCBD6C65823BA74921D7F493885F24ABA293BD8190F46E982467,
      0x31DCE0F642816ED235CE28FD875D8A2E22A84C8615987FC4D78C5C19BABC1C3);
    x, y := Twice(x, y, 64 * a - 22, 64 * b,
      0xA7B0A8AADB3CCFBCED6B0EA9A45476CCD630E70A1BA4F173BA9AACFC929DB481,
      0xDCCE86CF4ABB32F6FF27F319E56EA4DC21403106754543D583D17A50475CFB47,
      0x9C1C49ABAE7B4210D2736438BEDB883242BF3157BE60F6BA6EAC4850C4D7BC4A);
    x, y := Twice(x, y, 128 * a - 44, 128 * b,
      0x6E445DEDB7991F0863B89F2858B2A055A3D4F21E890A7208E90F6BF92CE4A8A9,
      0x4055CB99AB814CF3B1B621CDE1D6C63A7165845D99BA176AD7A4A8722CE48B27,
      0xB251DE8E4DAA97D6E95ED4475EFC75E9D6C92AC08F2772F5B9BC368D41D0C094);
    x, y := Plus(x, y, 256 * a - 88, 256 * b, KX, P - GY, 0, 1,
      0x257788DBB32FD48F74E6F7AB05B2CADB3BE4445CAC6020E54307A0B4488F6776,
      0x858F443417F0617A01C044D0CC559B17FBB3995BF9AB51AA460EA5FB8407A754,
      0x52C8DC3B16555CB4D3E47413BC71C3D100DEA5FF85B832CEF0FBD1656855E49B);
    x, y := Twice(x, y, 256 * a - 88, 256 * b + 1,
      0x1A6EBF8696357D41DC8BE63369F921E3778D0EE88E29879725464B329872E096,
      0x30D55636A636514EEDEA07930172463050357E04B09CA97DF8E90BA57927C94,
      0xEBCE818D22B81071FC5BCB43056B17E8022F182CD0508A474656B79DDFADE9F8);
    x, y := Twice(x, y, 512 * a - 176, 512 * b + 2,
      0x3C00FAFC5DB63DC1BC821955B7EE2F1A89DA32E9A4044106E079F4D8206EF379,
      0xF07E4C70BBFEFEF208B00358F0A8E6AA3F97598189C1B0812D572422891A86C7,
      0x2D10F7E2A47E6DD54E287F232EA3346C97239B508247C2317558A35BC44ED6D7);
    x, y := Plus(x, y, 1024 * a - 352, 1024 * b + 4, GX, P - GY, -1, 0,
      0x621E63A26E8DA793ED5722996D5A747EE62C577505A20D55918BDEC7C569A0DF,
      0xAC133E83B32E7F1889A08998B0B91CDD029F2F5A3EBC5BD497F223F591E4AFD2,
      0xF983B4D6FE942E597D785D46A472361D9895C668CD470D9978941CDBC651D267);
    x, y := Twice(x, y, 1024 * a - 353, 1024 * b + 4,
      0x7115AA5CA57B42C61AB7BEF9BA70CCBFC9BA220D6E807419F125EECBB5C2A24B,
      0x986BBF846C21A6803C071A80478180ACD2B1DAAD7DA34B972346181BAE29DA7D,
      0x990D80E6052CB7D0E2F12B9759C096C89E1FBF73597B8A650A832855934F97A2);
    x, y := Twice(x, y, 2048 * a - 706, 2048 * b + 8,
      0x6CB279085EE9721A3AEFEEA4C1F842B39E51B00AEF97E27CCCDD2B97B13F1844,
      0x9A7D7BE4E758E47780EB8735EC5BD2F5084F42C9C5FA280A647D8A654953B45,
      0x8CCD6743BAB86F37F035ACED301E49B25CC8A63554EBF928CBE778914E338D7F);
    x, y := Plus(x, y, 4096 * a - 1412, 4096 * b + 16, SX, SY, 1, 1,
      0xFD6028EB7B227646ADCB962494E9DB8EFA1321AF8A95BB1C87FDBF0696B00C12,
      0x6EA02E1E9F5578DFFD6C5BA8592753CCE9C656B74AB132F209DAB003CE9715DE,
      0x78E0E5D28F80FC4AB15FC6797DC8B542F22966F63F19779E4B44C8A2039D6D39);
    x, y := Twice(x, y, 4096 * a - 1411, 4096 * b + 17,
      0xF139842C782E96BE17748C5D64989E27723CCC678B9B991CDBCDA2F7D277D12E,
      0x873D00F72F55C978399452F07895F18077A68F6FA380CDDDCB7D6BB094BBE94A,
      0x8BA0A8E08FE8D9F7C6E569E5B40D2B4B439ED4C50C6368B940368BF94F545696);
    x, y := Twice(x, y, 8192 * a - 2822, 8192 * b + 34,
      0xBC11907F4B8EEE95C79D2884C3D5F9B985045E60A8DC570E0AD037A64B29520,
      0x45142D3C5D1A4FA844B7CB7DE0E78A31E60C8025E6488BA2B3F4CFB3C32A8866,
      0x9DCC50AB62F502D4C489E115C21446FBCBD065816BB28D2F1A46945E8606832B);
    x, y := Plus(x, y, 16384 * a - 5644, 16384 * b + 68, GX, GY, 1, 0,
      0x27C93F31BCCB237381AA725630E4AD390C56E2149A51A982AB73642A6920ED5B,
      0x882C0E8DFE8DBA163442E347C0610CB9FF17C09EFCD5AB95921101812B4253E0,
      0x19B069EF40C83A8941EF4D8B5F98999A3C0E4B16E4272BA6B3F8C121B394B0D0);
    x, y := Twice(x, y, 16384 * a - 5643, 16384 * b + 68,
      0xEA28517C76FE542D99321778DCEC590F7FCA604DE3985DA49C75B6E4B431A8E3,
      0xAA137336527033CB5685C66426342B57EE557B72C9CDC82EE6D94CE3548842C2,
      0x69102558CFC7E0ACF1F0A879302113D037470DA932F160CC55562E59BD08112B);
    x, y := Plus(x, y, 32768 * a - 11286, 32768 * b + 136, KX, GY, 0, -1,
      0xC4C1CDD26E92C64DE465FA9A7E3044CB02399A79DE5C9DDB8C023679228197A3,
      0x4A35B04A6E478AA6DE8A8DB93CB8AE14ECD58DE8E8BE74F1A90A444F900AB6E7,
      0x643B2190F05445ECA4F0EB8814A9696D30F7023F250ED75FC7C12504CB38B802);
    x, y := Twice(x, y, 32768 * a - 11286, 32768 * b + 135,
      0x6E06DA1637F92A748F9E806173AEC6A9F84C719D6AE87F7EF41AF1EFAA97A6DC,
      0xBA0C0A0DAE53AA649E3B9F255A62BEF7B7A17A628819CF12B94494C7D1B58440,
      0xEAF88FD2D0FAD191D84290AEC1132A4A2AB471B26594C79C188F009CF07C2F87);
  }

  const X4: int := 0x13EAFDE28393C8D16B2D7D0F284155F5482270BB5C700C411515612F77CC06A
  const Y4: int := 0xBD6155BCD9D28E9BC863842B2E52F8CBB10E3B988CC0B1A64F6F1A3CDB01E8E3

  lemma Chain4(a: int, b: int) returns (x: int, y: int)
    requires GroupFacts() && At(4, X3, Y3, a, b)
    ensures x == X4 && y == Y4 && At(4, x, y, 65536 * a + 27598, 65536 * b + 34856)
  {
    hide GroupFacts, At;
    GAt();
    KAt();
    SAt();
    TAt();
    x, y := X3, Y3;
    x, y := Twice(x, y, a, b,
      0x804A20671AE145408095D09BA5141B81E5AF3F47CCFBF1DB282A776D0A61A867,
      0xF437079BE6E69DF1A7FFF6EF08C3C6DB7A7EC32C1469CA4A5B530E652D002277,
      0xF6D3B1AD103B3B843221F55A8F0B83F6E9D5675A528E28AA8813F39F71B99888);
    x, y := Plus(x, y, 2 * a, 2 * b, SX, SY, 1, 1,
      0xC1CBAAB4D29A7C53705D13A7B397723A447F3470BDC830F713B244886C9BA3EB,
      0xADBD4F25A8EFFE4F553EA172E5BBFC920B8024882143D2D829D79EDB137BECE1,
      0xC2940050E35AE1635857DE41931B146E29D88AF3AC4C34F262AC84790FA53DE7);
    x, y := Twice(x, y, 2 * a + 1, 2 * b + 1,
      0x7846A9F56793D2737562CA80202078C8D48FAADFC9EA6588F561F6010E482BAD,
      0xEC25284C9C90DD189D4FD0296FE51A653AFB48CB8B7E7472D4F851C2153675B0,
      0x51EF92FD9F328BBC34D8E7740299F5A7F87AB19FDE01DAB47C0CF65EA2F17A49);
    x, y := Twice(x, y, 4 * a + 2, 4 * b + 2,
      0x2FD8A5C8FC98011A7FB6C9224D502890A0897DCA8B8311CFDC3CB7FDCFD7F70B,
      0x989CDFAD4B24E2FB0D05E3F62AF91C1B6943F44C16764571312BA4B72605B985,
      0x581B21FEBD5E103E5EBF3EAA8E1E5D695C4B03D59F0A3DCABAFB07C5F490428C);
    x, y := Plus(x, y, 8 * a + 4, 8 * b + 4, GX, P - GY, -1, 0,
      0x52D444E7899BB77C19C48531E98B0C4A68BC3569018E3366093802AF9A9F936B,
      0xF61D45A64A40BA06AD1E6184305C8900016D54F76429615DCC3E160D26A50932,
      0xE35E56C98B232C622F346B75A597F6ADE7EA0253E8A487DD3B6751E228F15399);
    x, y := Twice(x, y, 8 * a + 3, 8 * b + 4,
      0xC11907A935B9667AD5410A4B1540DE587C4D64B4D88EA37ACEF4EF5693D5031D,
      0x4E514E635B081C74FE07E706136585D8B675A4220DAAA49E67D72E096AF300F3,
      0x79C684B4E76148AC28F55D93C9BD5BE8D13DFF6FD78AA3CE5157B10AF55EF61C);
    x, y := Twice(x, y, 16 * a + 6, 16 * b + 8,
      0xC5699D54F3C395D3275177DD2955C7E281FA4BE8C31183A7C66A0C93DF3BB735,
      0xECF9C7118D6B13707B5962879483C066C56873AFDA3E805D4839CE977AE863E5,
      0x6B5D74A4D707C7C8E1CB528993EFB7D5E991EB525AB2C3B7A33840F477B517C8);
    x, y := Plus(x, y, 32 * a + 12, 32 * b + 16, SX, SY, 1, 1,
      0x55D1166C962C709404C34F61F35F7D5C79DB757375AD982A0C87E865C56D2F60,
      0xF58755AFF4A9FFD82B88770FE08CC881B9CB9AA7359CF0C83788163D41BA14A9,
      0xD5770619AD7E97F16A4658B70E97CC6CF8766F844EFE7B58E6CB4D5A8C234BC1);
    x, y := Twice(x, y, 32 * a + 13, 32 * b + 17,
      0xD513C8366364008762295DD307F50AAA9F7ED5AFA189FF91DF5C6D1E355BF1E8,
      0xEF28EEBB813712D1295A7562C7961D8571786CF87EEC1F44262CEDFA3AAD64FB,
      0xCF5D89A791B64B613492F9FE857617B387F30002F02712D6FE940ABB09DDF064);
    x, y := Plus(x, y, 64 * a + 26, 64 * b + 34, GX, GY, 1, 0,
      0x4B980713102CC5F8E1347AD688AC979C162CF0468696827DE23F962C346D132D,
      0x3781F20931F70FEA5D2EA92CABAC23137B1763C464276B21D3A8D54AE1C9093E,
      0x14713C377DB474E102E5E9539A220C77F66BFCA10052E4AB6B41D7B417DE4175);
    x, y := Twice(x, y, 64 * a + 27, 64 * b + 34,
      0xD287B9A70349D67D89CC4AF865C8C0FB4DD8651F089C749D5EBBA67E8146D56D,
      0x9ECAB66D618E079CE6A69156ED0B0730ECC101CAD4201508FB234608674713E,
      0x14B870895D091A8D6E85559318D86F99F559CF8E6E7B597350563140C431702E);
    x, y := Twice(x, y, 128 * a + 54, 128 * b + 68,
      0x65CCCE919D183CECE2BE5A23778DC16EDB232AC10E0D1C1D8E3DCFE887A6D318,
      0xC3F33F1D969A396142C5C9EB3618CB492C1ED573E476B71E4225D99EB59D2EA5,
      0x390A22D18FF53589D9E1D79D7D5953C53839824C52D555CE3D80733FDE9478E8);
    x, y := Twice(x, y, 256 * a + 108, 256 * b + 136,
      0x6C4965AA573DCB04CB0E6C216F6752419061AB904885EB17B80744547471FFC2,
      0xF1902E8CA2E597F9118768F2A40C25646E163547D427993163FE80BEED57BE00,
      0xBC94996DDFC9824817EF377A376C57FE5D716D5158BADC52A3BF387E41F8EBFA);
    x, y := Twice(x, y, 512 * a + 216, 512 * b + 272,
      0xC181281D731E3C4A1A628450A79646DC3D39D3903734B42C81B0C45AA8854612,
      0xE8F820DAF181D53CE87FFC7FA996FD7C2914FCC7B0ED305D3A47BE315C0FD1F1,
      0x10B1CBB574506B905B5505CAC77C348BDC830F08DD83F3DBC8A3A490FFB9198F);
    x, y := Plus(x, y, 1024 * a + 432, 1024 * b + 544, TX, GY, -1, 1,
      0x2A1943372A1BC92E2A53B059FB4D52D272A587F2E70952256F59A1E1E20AA3CC,
      0x1F4FBCD49A58B199A67031BEC5A211B845A7E1AEDC923CA191E2334DF4EEA4EF,
      0x342D90FF532D53086F0D6BDA65AB7D798ACF9ADA19653CC7F44B76F6C61EB7CA);
    x, y := Twice(x, y, 1024 * a + 431, 1024 * b + 545,
      0x85A5849A73C83963AA5C9A3DB21B550F6049F8B768FAD7E526FE71E06DAA1819,
      0x8CC3C64015A91C5ED8C3286F8D1D4FE0FFED9F09E714DDC1CA6A5DAD34C56EC1,
      0x364FDF1B5D0F7331A533B1083DD5F1780E74422B4E4386E931166CB3CB364547);
    x, y := Twice(x, y, 2048 * a + 862, 2048 * b + 1090,
      0x61E96A485C552FF9D36A8562B5EE36B8A4E2694207C9A667123653A4FD91DA08,
      0x66FD75FA0761CD12657F6D729179CCA9577839B3EB1F9AE4B93FE5489BBEBC52,
      0x6C8EE4C57E1BA2168709F2D271856E53C6F9FA77E2EA83D2AE8C805A72247EDE);
    x, y := Plus(x, y, 4096 * a + 1724, 4096 * b + 2180, TX, P - GY, 1, -1,
      0xF72781F06B16CE57F8BC3BC9C64BEFC1653709ECBB7D862CDE7D212E18312A03,
      0x67B09A4B6CB253BD05609203441251AE67611050B3F98885CB780F497A4C8D89,
      0xDF73BBE44700312B62F6E047DFAB86A3ACB8A5DCA725FC59DE1E5653B82B1836);
    x, y := Twice(x, y, 4096 * a + 1725, 4096 * b + 2179,
      0x7DD41CFE5DD4CDCE77900512B4D4A3016A98C3E8960049E98106BA0434AC0D2B,
      0x9F9E34DDE250C4662CCD519B8F9B98A9C6D1C29060ECBB67367E9A66D249C04D,
      0x11FFAAC46F9A6A996BB93350D070B6BB9C2C54FEFDA1B896C56765FA80AECAC9);
    x, y := Plus(x, y, 8192 * a + 3450, 8192 * b + 4358, KX, GY, 0, -1,
      0x85DDD50D2903F677EBA85244189BC3A20BF0677C7EE58B2DD5329CAC5553988D,
      0x525325C0C27996100B5DAB824F2B55ECD3857FE203302396B6D45D8AE5572605,
      0xBF91954F4EAA0DE0838531BC919E0F36DB7FCC463E7CCFEF93B8A604E15CC941);
    x, y := Twice(x, y, 8192 * a + 3450, 8192 * b + 4357,
      0x6D98BCAB5BC6468936136C1183E22F8DDD5F47D63EF22B30C3F38C77CD099A1E,
      0x41DCFDD6DE2DA769A7D80D7DEC2C1D6C92FA1DECE137C3D4B63BCA7E417C9D15,
      0x6F517950F6377A67E7002EFA29981B0605D2336D45EA965499D26FAE81FC3542);
    x, y := Twice(x, y, 16384 * a + 6900, 16384 * b + 8714,
      0xEC37CC1F007EA2D6E752C1DE5CCC9C98C0ABD37A9D55CC8C1B672DE97C93425E,
      0x34A17E41C6ADCCE5AEAA68006C00F72B99228EE9F614363C6EC8D0B658524344,
      0x7530D2A5547147430058E35F88C6BB0F8643B29ABAD7FC44196697F3FB52F1B1);
    x, y := Plus(x, y, 32768 * a + 13800, 32768 * b + 17428, GX, P - GY, -1, 0,
      0x6C639EB941440A11564446E228620CED4E391F5D78E4DB8FFC0D6009FC4E8078,
      0x33D0959FE539D948A5C7A544D4D8508C7BC3D10282A2B322BDB5CD1194AE0EC8,
      0x5878C4F55FEE0A4FB5193B949FE862C3E1349A24CF9B581B6A81C45F74A51826);
    x, y := Twice(x, y, 32768 * a + 13799, 32768 * b + 17428,
      0x65D67A2ED328840D5AEA116BB0F7483432D47894C656AABCD6D66202E5770625,
      0x13EAFDE28393C8D16B2D7D0F284155F5482270BB5C700C411515612F77CC06A,
      0xBD6155BCD9D28E9BC863842B2E52F8CBB10E3B988CC0B1A64F6F1A3CDB01E8E3);
  }

  const X5: int := 0x2098D03C60AFF93EF3CB90C6AEC936F50E51F786E7ABBCC4055975B754DED5CF
  const Y5: int := 0xD648064E723DF11FCC79D40FF341234FC7FF4C9EF852D3EE67FCE872087C575A

  lemma Chain5(a: int, b: int) returns (x: int, y: int)
    requires GroupFacts() && At(4, X4, Y4, a, b)
    ensures x == X5 && y == Y5 && At(4, x, y, 65536 * a - 6036, 65536 * b + 28500)
  {
    hide GroupFacts, At;
    GAt();
    KAt();
    SAt();
    TAt();
    x, y := X4, Y4;
    x, y := Twice(x, y, a, b,
      0x60D997EF36524C9B27483484E29F8620A964B37B8DA145793434383FEF72ECFD,
      0x788A10F4B898B02D2C8FE6781FBC040F3A54C896D8A5BA1A7A1D4784B486C93B,
      0x97A24FF05FD4C12849AD870993ACB08D81CE32A1F15FF1E8427467B13FECAF22);
    x, y := Plus(x, y, 2 * a, 2 * b, KX, P - GY, 0, 1,
      0x7D57F1A6AC959D95849FDEAF6666C736CDBFDB7C4D9AE099A80D592414A7E4F3,
      0xD4C599DD0CBC05F757473810665E67D4D14334EC8ADFD89183863507EA716292,
      0x8D63119AECEB8BCC0D64B7F54972372B2B8C68D3B0BAD8D920F990FDD29555BA);
    x, y := Twice(x, y, 2 * a, 2 * b + 1,
      0x726329E2CFA738DE020DE5F94017857B820802594CAAC3E423A5CC27A331FE72,
      0xD8B6653C13A137AB2C1C6C7AD36A6C2C8091207980DEF49DBB7D60C0CAE96349,
      0x66230A27FE1115A77DF2EFECB78B2482D6087185370BEE92291D56A52565F636);
    x, y := Twice(x, y, 4 * a, 4 * b + 2,
      0xA2C10A853DC47D811FEDB206A14FCEC3F01FAE31BB27AF8A46896A4BC7CF997,
      0x454836C225C49F788D31CF9F600FE1EEB23870DBA6B47FDDA5DD0CABCA931756,
      0xC44DA327E58CDBA55541CBAD8619898FB68C97458FF023DB63203C35A1E2B4A7);
    x, y := Twice(x, y, 8 * a, 8 * b + 4,
      0x877CB87A8B8868F81C12723999488D7449E528E8BF88BEFCCD5DB3210626E79D,
      0x818D92E56072DD0987B5862F2EF6DD769082BD7245F8A5E06FCFC31D871AEF1E,
      0x4FF3E3838BA470975F747A694A86BD9D8174DD4BA568401CF30393DA75C0690E);
    x, y := Plus(x, y, 16 * a, 16 * b + 8, SX, P - SY, -1, -1,
      0x25FC0FB8A688BDC2B06EDCF832338F9100F3AC063BEF55BB637B53CD6F955461,
      0x41E89658F75CFB7565B2C66B1494BB81A88BCCA9C457ED764BB3ED11C6611258,
      0xF78756E6F052B4080B4F1DFADDB1BA97D899440768AE3C4BAF5DACF1D39F5D74);
    x, y := Twice(x, y, 16 * a - 1, 16 * b + 7,
      0xAEA02ABB3804A0A21140874BB717B597386B105E6F1CDC337813C4C546472219,
      0x383AC10C323E0AA9BC29A8317B4839862714FBE090C38F5C2F3E4E949D34E2CE,
      0x4DF27CF6984D01FEC79D29710F4EF348EE8DABE8660F449227DC81CD5D5BEF45);
    x, y := Plus(x, y, 32 * a - 2, 32 * b + 14, GX, P - GY, -1, 0,
      0xAA03FF6857231BB1F636F57750B0B711A9CCB510AD2C7C8EDACBA041ADF918AE,
      0x4F05BB4FC674AE74F14BF1CB39A9E00AEB5A7676A9A0C4CDF529835AC76D2A9D,
      0xF07D3461CDB2B49F05F9AFA400F5E787A123F5E6BDC30B5CF0A8B1E0D56A519A);
    x, y := Twice(x, y, 32 * a - 3, 32 * b + 14,
      0x84DFB03CB5BE3BD2913B8106643B7EE3AB51BD7F8A21182781A57159C970C023,
      0x9C737135DDC665FA12CBBDD7BC6DF7FB58EEDF9946742FE818DB1183C9DFB521,
      0xCA74710F9F9DF71A4C1C922259A94DB0ACE6663916189C9C820DD49F74E77158);
    x, y := Twice(x, y, 64 * a - 6, 64 * b + 28,
      0x43D8B8CF1FEAD3A067B359DE96B454CD11B5924E434A4624C7E2F5B52DA126B9,
      0xE68BE2B364F15A2E95AE195F40139CB0144E73322A41D9110BDA0F0A2FBF8F7D,
      0xF80745A302C5AFCD001A6C5B4ED9766885F9646FCA6DEF55BB861EAA368DC472);
    x, y := Twice(x, y, 128 * a - 12, 128 * b + 56,
      0xBA21D74E9B8D0E479F98BA986439F0A0025D221478B58713B0BE97490ECCD1F6,
      0x8486EAEEAFEE82DCC529AFBD090377994DF9E1B02EFE4691551E724DC6D1C21F,
      0xDD86A487DFEF3B61C0E757E11A4281D20DF5F3495DFC69B9668601D6AEECD1A9);
    x, y := Twice(x, y, 256 * a - 24, 256 * b + 112,
      0xA1A7F00C14C684D4B49899BB7EECF4AFF7B51F9D8D79FB3A1547603E288B0B7B,
      0x328409FAF9C85FB26DA5E07F99F5A9D5E211D06678D36B49ED511DC5C74CCD27,
      0xE925A68E2E4498DAE70C87A1017FC9C825E7F41D38FB57825E2C7F907522B048);
    x, y := Plus(x, y, 512 * a - 48, 512 * b + 224, TX, P - GY, 1, -1,
      0x894FC3A0DC7F678785C490298F20F1636DD6FC4F86AFCBC742AC54A97BC96A05,
      0x12EE2A337C1789D8826533505CE68ED71655BD1CFE6E44DEF2E5AA89A4CBB30B,
      0x9159BD335912EB1797CE7EC15B02DABCF89BC1EFE1E8C6D1E9B78EEB5954695E);
    x, y := Twice(x, y, 512 * a - 47, 512 * b + 223,
      0x5AB5E35C7138074637D2D0BFC814832A83394EFB13B6C5CE6FEC9129D420463B,
      0x293947135DE1126A48F6449E08E608342580B20D0F908C7CAA4FE0E4FA9A8ECB,
      0xF9237DA137D9670004B45BF1736BBE71E897B3219254055C8C25B80396681C84);
    x, y := Plus(x, y, 1024 * a - 94, 1024 * b + 446, KX, GY, 0, -1,
      0x8C74FC6ED212E892B3BEE4EBE654978269D6623EA3105C00A8C012439FA53C2E,
      0x3A0DE639E3A9ADBF3C8637B6EE8F994F0831767A4916D97EC4ACD56D25A1860D,
      0xFF2045DB4C1D8BBD30F0E676BA2F1E493BD6887C73EC917253CD5B68303CED1F);
    x, y := Twice(x, y, 1024 * a - 94, 1024 * b + 445,
      0x8A94F315995F2CBD31D575EC9D02ECA1FD418DCCBBD0F21B6BF857F0912E0050,
      0xDBFEBD1C2ED2F891DF6C6D7356FB30183FE90AF5B4664D15FB4BB08EC26F0FE3,
      0x4EA697AC746BA4E4CD121BC0BD0143B647D72276ABE1D7EEBC66EC5BD6E94384);
    x, y := Twice(x, y, 2048 * a - 188, 2048 * b + 890,
      0x666B93ED05C3F198BF1CFD8921E354B9BEC62B1912ABA11DDC34F86CDF29D9AD,
      0xCEAD51F15FFE9602D2F407DD1FE4ADE0DE4A94FB34F65DEFAC0E6660AD5F9AD3,
      0xBEB3F718BA98C83FD16CB7AA078584588995A679C6BD56034B536D6C9B154075);
    x, y := Plus(x, y, 4096 * a - 376, 4096 * b + 1780, TX, GY, -1, 1,
      0xA9D91649F24C88501905ED1E63C6C07C6DD02E0BCBF2EAAAE6CFF6A30DD1658D,
      0x55DBE4BEC4736EA33D74C37926C19A94C4BA4D610886E90635BF9DCDB8CAC17D,
      0xE99BC72315C28E466898D708061DCC5EDDC52056769388547EF39A7EAEC8A2E0);
    x, y := Twice(x, y, 4096 * a - 377, 4096 * b + 1781,
      0xC6351A3BC523646932B0A6467182C2BFA50AE59909317C924BE00764F8356753,
      0x93743BBFD6D478F2E9CF46476CDD963202D6E5C64F0F76EBB9BFD6B1B1102793,
      0x2C1BEDA3929B3698C3963C0A0C5724D18A9647643F0008D7759FE19434C867C3);
    x, y := Twice(x, y, 8192 * a - 754, 8192 * b + 3562,
      0xBEA0F4990900E13F945E7C6A72175E501BB3E3C5ADD8A07F63E4F48D2F231F16,
      0x2CA32E9B6BDDBB379F933D95E926F7BB7B31515B309FC641BB9B753C87A1A726,
      0x4CCBD1B7A517009367725F05592D07D5D8FB1B8C1BDD95CD154BF167D903BB99);
    x, y := Plus(x, y, 16384 * a - 1508, 16384 * b + 7124, TX, GY, -1, 1,
      0x4C23052A288EC01D0D1A17BCAB6987FD49294DFA6D6781E6E5AEDDAC9E43514C,
      0xE996DAD643363B839B4D2087C10E0A4A9F90D95EAFA5EE3C59118542F602634C,
      0xE62A5CFF9382F1D9FE84DDE9B8FD378E0086030DF0694E0A3DBC0C087557D6BE);
    x, y := Twice(x, y, 16384 * a - 1509, 16384 * b + 7125,
      0xDCE9E59BE00A075D7AEF8D297F2C02E93250AF6C9DE0B35117F3B8FDA00CF4CE,
      0x420754864897168F68F1AEAB6E951B134EBFCE6D92F73E1C6CD044BE92435FA5,
      0x2D41D28C578F5007E4DAD0499D9D283D5BB09C83D2154DE956C589E387413896);
    x, y := Twice(x, y, 32768 * a - 3018, 32768 * b + 14250,
      0x77055E37B81B66AE5B6BEB95CE3B7BEDF278253A5AE19F4A561862DC4DA890E9,
      0x2098D03C60AFF93EF3CB90C6AEC936F50E51F786E7ABBCC4055975B754DED5CF,
      0xD648064E723DF11FCC79D40FF341234FC7FF4C9EF852D3EE67FCE872087C575A);
  }

  const X6: int := 0x823E6DDEC25CD6AA73A7096EC8DF690E8009CC32431BDD6E8B137AE3B5095124
  const Y6: int := 0x7A5806F3F12BED979654078F7381BB561D5557D207BAF9E459FA160C3CCE9784

  lemma Chain6(a: int, b: int) returns (x: int, y: int)
    requires GroupFacts() && At(4, X5, Y5, a, b)
    ensures x == X6 && y == Y6 && At(4, x, y, 65536 * a + 37092, 65536 * b + 32681)
  {
    hide GroupFacts, At;
    GAt();
    KAt();
    SAt();
    TAt();
    x, y := X5, Y5;
    x, y := Twice(x, y, a, b,
      0x59B0EC5B4A46F5823EED452BDEA70222AB84DEDF673B2A2CE3B6EE14417F5563,
      0xA0001ADFE8909432F66263C8758124585E87882BFABBDC7AF7BCA2F14BB6FB51,
      0x21B8A3A0EC2F6403DF8EFB3A020288369E5040722183278221D80EA6A49FE7B9);
    x, y := Plus(x, y, 2 * a, 2 * b, SX, SY, 1, 1,
      0xA1E6EE215EC89C3C853856CADD766C9C0A5C1DFEF30BE9E8C64212C299F2C1FA,
      0x1881EF866046CFBC720D1236288B9DEDDCBA5A6722636E7829604240742C653,
      0x2406D569B8185EEC41A87FBA2F0A60215B2BCCE68DE4049E05F23831BE957CC3);
    x, y := Twice(x, y, 2 * a + 1, 2 * b + 1,
      0x946060032CE92EAFA3CFB69FC84C570252EA304082A25AEE30E12A112CCB65A6,
      0x86E6BA2D452949F57940FB5CD86C9E1FBF953BB5BA1985899A30581A22C7AE0F,
      0x1A71661F07E7765FAD00A5C9E4119DA0E59A3FE8D668BE039405BEA59F3A777E);
    x, y := Twice(x, y, 4 * a + 2, 4 * b + 2,
      0x2342C5A0249FCA53BFFEBEA094027C9A0E68630E8A50D563BD7F231C89EDC983,
      0x2650232E3C09ECAE2BCDD30B6CD2D6CEE2F4CF9A3488C3E63EA634C3539C7B6,
      0x6B31EF4DD1BE322FF30433157CC671D1C0802C63D1FEB27A9BCA83547406C68A);
    x, y := Twice(x, y, 8 * a + 4, 8 * b + 4,
      0xDA467DB292DD5B30C9FEE1DE3802ABEDF02C4890A0209C81E4ADD4ED983CF8BC,
      0x8A1D8D2B2D0B0D671B3D5313BAFF47FF38C7BDE4D7F9562CCED7AA3233E61CB8,
      0x9A1F214E91015BE3CCB776758F1CAA09BACB03F2AB657823F947ED2CA93BBDA2);
    x, y := Plus(x, y, 16 * a + 8, 16 * b + 8, GX, GY, 1, 0,
      0xEF98F5455ABC6CB043F4D655A31E77A7823E30D3C1E4308A47B238419E4D2CDB,
      0xB40DE0803BBB393961B10587BBBBF87373008CD8F20A2040BE728CD9C0666291,
      0xD473F4C8316470B9FF68DDFCA780A6B16C2762CCD967AFA7ABAD6F5FCCC0D90);
    x, y := Twice(x, y, 16 * a + 9, 16 * b + 8,
      0x9B334234077236F3326D66F159E793D736CC24B2953711B5DB90932357185812,
      0xA172DFE11ABD3BF17EDD0E726C45120A79823FA950D65AB6355CC49AEA889160,
      0x523409E654FCE53D1C68E3CE33517250234FE911611EA8A1897E4239E1A19E09);
    x, y := Twice(x, y, 32 * a + 18, 32 * b + 16,
      0x3020F4E0E0940515AA3F812CA6071FDAA2EDB08AE3B5D72EE80E06DEABC3AF54,
      0xE5202F6F36192E9FD9BE64DE34F6DA8839620461CA6BDA6E05627EE1324D8C41,
      0x2913BABBCC950ED2ED1DB5C3BE64CA019D64443A704A499BEA0C5567A8AA020);
    x, y := Twice(x, y, 64 * a + 36, 64 * b + 32,
      0x2C16BEC4BC766C496B536932DE7731FB9EAB4DBC6EB9C9CC32DC11DF601B07FF,
      0x1DF888637A22BF4BCC7DE4B60E99D3F85B92326AF8F79A6D536FEA6836F8DC07,
      0x16CF2AE0DEC78BB79C416E4D937CB20DD2C19A0C90471C80EC97DD6340D1DA05);
    x, y := Twice(x, y, 128 * a + 72, 128 * b + 64,
      0xA93DA560F1CEE0FFC157139C9B1B2C4559E5A54AB8FF90AD3C2B083ADE039058,
      0x2484C4ECEC1B65A17E6DAD196F5D1DC5D9484BCDFFA81FF3D7C082FB67A2BCB1,
      0x50216C534A28DC352FCA034A0B7C64DDA06EF349792FBE458895D45E20B5C957);
    x, y := Plus(x, y, 256 * a + 144, 256 * b + 128, GX, GY, 1, 0,
      0xC595900EBB5AC02636AE6E639D0EDA92CF6F4822A7DAA57658FF190307A4B5D3,
      0x6F00407A780193B46FB269EE7DC2DCE275309A140811EB2083E02CF8C3EC4EFC,
      0x5882EBAE76DB4978045234DD7EE32A83EA305EE733AAA2BBC13102E127DAEE8);
    x, y := Twice(x, y, 256 * a + 145, 256 * b + 128,
      0xC154E6221D0E66AD69CAC332F2630DDEE594C86564A9DC775E8A7968F66EFB11,
      0xCB85B2C253A915ED6CD007D62EC99327E087F7441789DF8C817C4864D168F1BB,
      0x4D7E369EE5CFEBBC1B7E55715CD4E6D77A57D2AE3299BDA3A4B15AE7A386E2F4);
    x, y := Plus(x, y, 512 * a + 290, 512 * b + 256, KX, GY, 0, -1,
      0x46C3FECAFF87A7FB0B74E031884897EDF5317BF79485192CC7F8507757C3142C,
      0xEC2B6500639BF10835CA3DAAE320B24474E11AC991D2DDAD06F8B67BC50AD86C,
      0xBCACF5544F90C80E45A6AED58193A3E9DDF5BBBED4857CB0071A315DECCAFACA);
    x, y := Twice(x, y, 512 * a + 290, 512 * b + 255,
      0x7004B97E8A5C49112B1497875FD084FD78E75FFA947F125314BD5F50B8896123,
      0x7776FE29F77B37B8E2B113878E23A6105B4D9379610A70CDBDD9B7E550AFA319,
      0x68F448E234506440D13FA8B3E76E12A84CF727D7694C9C1514D6B0522A7BA2B);
    x, y := Twice(x, y, 1024 * a + 580, 1024 * b + 510,
      0x89638D4E16B874D2DBCD85554048C2CF36F6C1591E60371BD0A2A6FEC5B10EC2,
      0xF99BFA3BA93DCF21191083E193329B97C30ADEAE9E09ECB48B58C44B0DBCA2CB,
      0x38EE26C4E72CDDF5EE0BFD31F16A4240582F36849CE70F6A52BDBD85EC172316);
    x, y := Plus(x, y, 2048 * a + 1160, 2048 * b + 1020, TX, GY, -1, 1,
      0xCA34679B6FE34E62B9EB90F27D3591E2890656DE367CA0D1B7A83B443237C575,
      0x336D03087F8A360547244FD43A4402B0CE3C1A2A4451BB73940D042B4550B8A8,
      0x1B0E9D699E6DCCD75CFE6B0A9F3F2606028B048B05BC3E61A357371618EC9727);
    x, y := Twice(x, y, 2048 * a + 1159, 2048 * b + 1021,
      0xC0F2A410FFC5D6ADDAC236AB0BCB740F0260E7A279397041B104FFB576AC52C8,
      0x1EC741C9E31A25D2C2F745C4C3F7ED7ADBFEA648BFB2CE7B830488F7AA096D2E,
      0x1A99A451DF8AA57CADFB9AEF72784D5195E4CA76F9A8BFF7DFEA208A0025E9E1);
    x, y := Twice(x, y, 4096 * a + 2318, 4096 * b + 2042,
      0x51B4963113FE18798A9A7714323822F5A6F8BF5D71C7ADA94F22D63A169589AB,
      0xDB4F7B090A48815EDF632837C08412CCC22BF55FDBD8034896C42C02ED4CDC7B,
      0x972B27FE02350E8718E72492D235AC2AA49B3743033F866C8224E236049CF026);
    x, y := Plus(x, y, 8192 * a + 4636, 8192 * b + 4084, KX, P - GY, 0, 1,
      0xAD28C18F91E0A256A428C714F1447066D39B7579AA02D8E407402EA39324A495,
      0xB93209738435D5ABC2297AAE654676D0F7E2A63DA7949BE3310F1545269A9AB8,
      0x478EEFDEDC057A1B298C15BB76A7DD1BA44933DEE98BB6C7F0F131139B236D90);
    x, y := Twice(x, y, 8192 * a + 4636, 8192 * b + 4085,
      0x15A382392C54288BDE390F6BB1B9D3CC230EBD9B517CA11DB85DC4436BA7528,
      0x9F80FF0C05670656C6AEB9BD754A2E6FFB7B8B160E019644D3B3E7AC6D695FB3,
      0x920F35D8122B75636641321DBFBE61664B7246A6ABFBCCE3E5D742EC31AE455F);
    x, y := Plus(x, y, 16384 * a + 9272, 16384 * b + 8170, GX, GY, 1, 0,
      0x9BBDFE8C70D2B81AE629B7DCCB2B3A2BC9BA332D58D82497988C0BB2322C52EC,
      0x957B2E8CABDFFFEA0BF507C5A5511B5644F2ADEC49AA12E9750F97E4E0447E72,
      0x75292540A0172ED2FAC8BE13226FDD7801B9D57CCE628D969A16277F47F9FF5);
    x, y := Twice(x, y, 16384 * a + 9273, 16384 * b + 8170,
      0x57032455B206AC299BEFA9834414FD3B4C69366EA2283197ED36B72A23236D0D,
      0x589803C3D0254A43F0F78E18070F9679BC71DDEE41D174A8336E02E236B5C1C1,
      0xCBB7268717A97C9260850B844708D826FD88D54C10D9B5E57CAD8E496E70F582);
    x, y := Twice(x, y, 32768 * a + 18546, 32768 * b + 16340,
      0xCF133C57EDCD5A1872542F16B159C59F72B4D7E9194C3EFFB7EA3B0EA41252A1,
      0x499AC2FE28550B3BC3C234518F48A0903EE20D79C9963AF35C07388D68E71381,
      0x344028A230D3339A916549923596072243D8B300E2C38D14E0ECDBDC195A70D2);
    x, y := Plus(x, y, 65536 * a + 37092, 65536 * b + 32680, KX, P - GY, 0, 1,
      0x19F25A3697C3189393E2D467F9DE682B1883611025D4ED5CDF1F14E83FFBFC59,
      0x823E6DDEC25CD6AA73A7096EC8DF690E8009CC32431BDD6E8B137AE3B5095124,
      0x7A5806F3F12BED979654078F7381BB561D5557D207BAF9E459FA160C3CCE9784);
  }

  const X7: int := 0xC495AB829645ADB5EA6EBCD6011DEAB30299D7CEAF47249AA685FAA6C4DDC1C0
  const Y7: int := 0xE850CD699F17B56D5D631067550BA12F1676F71D1EF464E811E541E6381B1FD2

  lemma Chain7(a: int, b: int) returns (x: int, y: int)
    requires GroupFacts() && At(4, X6, Y6, a, b)
    ensures x == X7 && y == Y7 && At(4, x, y, 65536 * a + 37509, 65536 * b + 2752)
  {
    hide GroupFacts, At;
    GAt();
    KAt();
    SAt();
    x, y := X6, Y6;
    x, y := Twice(x, y, a, b,
      0x4BF5FB2356268B3B10B8D518158EFEB7982D36D68BAF2A20AB93533BF858A1C,
      0x35C491F93F4A8799BE96D91E3F88B72385720779664DBB84B31450FFF8FBCAFA,
      0xC29F059C03A864B439155E5CE8A7AC242840AB7F72D444D256C709C4CE0918CF);
    x, y := Plus(x, y, 2 * a, 2 * b, GX, GY, 1, 0,
      0x9BA47A6231D3762C41DF24CEA7EEC4BA4AB0E306EB1A43783EA697A475699A2F,
      0x6FC000FE55BA9D6C19F591705B3262BAA7159A1654B3ED4BE75D76384B2BDC9D,
      0x9BB1CA70DD380E563A0B6CB93DE6C8B3D0C617F3899526960BA2114D67E30EDE);
    x, y := Twice(x, y, 2 * a + 1, 2 * b,
      0x8A04968E57A999CB5982A6B33922ADE2410580A4576E4FDC128CB13E5CDDE3C9,
      0x9946417F6AF5D4948841A2E0A96704F6422EEED6A50B94AD8C6DF40C1D0AE838,
      0x70E0BE86DE0B7CC50E825600E4AF80735669778A6FACDFCC91309AABC8FC6CFA);
    x, y := Twice(x, y, 4 * a + 2, 4 * b,
      0xA80DBE3C0A7C40B217CFEABE4BD2A0AEB38C578A624CAA1DD8A849F5BCA957CB,
      0x2EA634DF4FCB8D56E74192879EBBAE3CE53FC27017791C9BEB475DF4717596E3,
      0x1A5E4DBFF5F111D590D494E3A98DE6CF1E3D043CB3C4E090470244E167C1B4EB);
    x, y := Twice(x, y, 8 * a + 4, 8 * b,
      0x9EF0993E0E71C9197517D779FE6061FEB75D608A77742FB9ECCFE13602AC5AA7,
      0x47EE4CB2623FEE6D27FEFB8DDEBB607EAE8FDCE78E585E1F694C5FF8D1548677,
      0x446A6D6912DD78491BF492B6BE8D8AD441894C87F5ABBD617B25661F34D5839C);
    x, y := Plus(x, y, 16 * a + 8, 16 * b, GX, GY, 1, 0,
      0xE7F9DE7EF6EC789A58664026CEA38B52901D0DBCF9B53AE95D2A1E391A12AF08,
      0x2C8690668CD4416C2CF611C14D8944D9BE4AEF053BFB02B80CEAA9B7A0A49EAA,
      0x8CDAFA468D9A7950E5E43E0F638BBF5BF0A2C29DFFD317957808851A59781F03);
    x, y := Twice(x, y, 16 * a + 9, 16 * b,
      0xA98EE95679313B06E9BCAA9AC84FF3C50A7B94510FBEF6E6A8F88C762A045BA6,
      0x195F76984CB55FA9DE3C2AE1D58DF955AEE79BE6524428FBF6825232824D857E,
      0xDCCB7E123FD18651B64077F5EEBB6CB5E4EA619D4643661C2B7EAE7278D9A856);
    x, y := Plus(x, y, 32 * a + 18, 32 * b, KX, P - GY, 0, 1,
      0xBA39579F5AC61BF2A26B529502793DEA197DE934CF9A6208CE9CAB9337A62B09,
      0x50B65CB2D29EA6FD486D26E3D223AC5DE99311094B599377AFD625551EC2D628,
      0x6FEF18EC41638B4B15824D24BBF4D18B4433084A0B690F9A73F3D88BFCBED6B7);
    x, y := Twice(x, y, 32 * a + 18, 32 * b + 1,
      0x7D2D3199FF03E3DB2C80A4B4500153FDB72733ECD44756D2AE655DB21390E645,
      0xA8879CAC66A20232198D95DB70F402CB2B44DE71C834EDC3AC70C549B034425B,
      0x3F6ADAC903B38D12623E31526A02E29CD546E3A6EE7F306EF2764E6811AB0FCC);
    x, y := Twice(x, y, 64 * a + 36, 64 * b + 2,
      0x1D38F19C487C9BCDFA98F81330C34A7F6095617636FF6E07CA7DDFF450C6D44F,
      0x31E11FCF9429AE164BD44CE6DA985916662C60A7282F5F7DC4E7270DF07E4002,
      0x26958BDB39269658E34F5F2AFBC442A62CEF878FC23244153E929A59BF2D3124);
    x, y := Plus(x, y, 128 * a + 72, 128 * b + 4, SX, SY, 1, 1,
      0x33D84A595C009927DD256E0A4F0C38FC68E9E37EA91C1450FFB44D5A08EAC658,
      0xE57E52622AD01085A7D6C2E25D43353EAE1FE6BC381C925BE2B21287DCE1DD0B,
      0xDE47E9D5A640F9BAD6A346BF3AF4CDF64EFAB79D016653A66C40F4758CE600CA);
    x, y := Twice(x, y, 128 * a + 73, 128 * b + 5,
      0xA5223DB8EA7820AC280323E2628BFA7E231FDE12B9A042D87C82D7CD0448163D,
      0xD9449F3F64BA3EA859CF83BC2FE32D14EE3E873272B7FD47D7B3F8B2235B1F4B,
      0x821BBFDAC7C4CDC2026E84812E6F0581EB0EC3C5C5BA8DEC2599AE04A7A1F2A0);
    x, y := Twice(x, y, 256 * a + 146, 256 * b + 10,
      0x757AC54D25ABCFC9D11E1BB21293EB05BE79130819C01610886512AF0BBFA343,
      0xAB06DBC9D413F8E22D5A0D841567E467474AD18A2166E58B8788373A9951E3F,
      0x30E30701C0731EEF6AC90415CD58FD4C03FB6FB32C9316F4F1A503D49E4A790A);
    x, y := Plus(x, y, 512 * a + 292, 512 * b + 20, SX, SY, 1, 1,
      0x34CD9A3C9C4C2B1C3B85CD7A3F99A8E14C6E8F935681EBEC981FE65521474A65,
      0x6BE79777F105419D66F724E0B1DC66D70EA36C383AD3C784F205E827318AB1AB,
      0x18387D40FA29596081B10304904B63AF7EC8A314753FD27B2021DB477CB36C8F);
    x, y := Twice(x, y, 512 * a + 293, 512 * b + 21,
      0x19BCD24697FF9AC287DDB43610387D441FFADF3844F8A15BDD42A806EE0549AD,
      0x8C43FBF99FA31D4FD311509BF91B26E24A3E3F8F98E4BB5B64F5B3578C8AED2D,
      0xD82C7B56E48B5B0B65FB70F934932134976DE895591D0447A65AE25B5C424992);
    x, y := Plus(x, y, 1024 * a + 586, 1024 * b + 42, KX, P - GY, 0, 1,
      0xFC811D2454F12B939E81910C8983A5191D6D6B39810560D0085F81C29CC49702,
      0x408925FFDC22D7A73AC970566F099324E52B2C9401C34E1C30F5545DB9F1AA0D,
      0x4E34DDF0DABC588E394D6B83E7D3FE61123B2797D991AC8C0B27121AFAEB3227);
    x, y := Twice(x, y, 1024 * a + 586, 1024 * b + 43,
      0x54843B8E932453B121470965385E8520874DE2BA7184E40761A98379130F21D5,
      0x3617011F94E8B7626B616FBCD467F816D5C38E8760E04E5B3DC1DA4A0D3DFEEE,
      0xCA12F57D1F079C66E0D0082186CCB56B15DDA1533C6BF412204470027136A596);
    x, y := Twice(x, y, 2048 * a + 1172, 2048 * b + 86,
      0xDD126A127277BAE737571B7DA916B0DC9360EC80222CA93EEC2C852C4094AEB1,
      0x36C4D3244F0D1F41C3BF367BF2FED4A5085A7478115477CEB10F410EF78DA304,
      0xC2D2881436A82CECB6E38369A3A75FB0047E017BEBCB907AE4AB42EA4689D735);
    x, y := Twice(x, y, 4096 * a + 2344, 4096 * b + 172,
      0x321940EE7B8A81809E95489DB25EEFCC12858B62FC6D9F33C2B32429AF3FD69E,
      0xF9068748BB3A0751D00C1C02ABC6674A898A3602C48D16F0F1C946E85B0B71DA,
      0x3090FDD4A7B276BF14691573B0AD9C41ED80E87D2B95E414F9CB28CEBC6E6DA7);
    x, y := Twice(x, y, 8192 * a + 4688, 8192 * b + 344,
      0x4B3B075B15CFA43A29B09411E800187EE10AE01D951662B001CF0F54991138A5,
      0x3DA4A21376DFBA8E9FEC946F8C3B87C3F1818540367C25955FFB9DE10A928CC6,
      0x808FD3CA3DCCD6C2E79EA47CCB63401831906E02B9E0E88A2718DF046EC75CFA);
    x, y := Plus(x, y, 16384 * a + 9376, 16384 * b + 688, GX, GY, 1, 0,
      0x82580E3EEA8B329631D0992D5E903A621574917DC569C1B85224B764EC670801,
      0x46F08B403C3C4B2DB874FADCBCF0D186F7788715BE6C23A27B959F390953901C,
      0x3C145F374B576F3CEEF2672E6CAD6533F4C42C0A7D9F4E36CAB1F2462B63BE63);
    x, y := Twice(x, y, 16384 * a + 9377, 16384 * b + 688,
      0x77028D66DD9BE91C437B71F8BD8A24D53E3336FFF7BF15C6A6C17E4AE037226F,
      0x9BDE3EE986980D62F9DD1C56B31D918872FAB40CA7C3224D5765EA532C147C73,
      0x43004B51EED37AE7A79603A84D1862C3CC25C9D2F854521663D45822CEBA1);
    x, y := Twice(x, y, 32768 * a + 18754, 32768 * b + 1376,
      0x55BB6FC8FAFFF851B6E4488F90D3D7E93F73564CC7C732E6299511FFFC4C2D50,
      0xFB5A7270D68AAF297CC358AA31C2914E9A4B2BB378A0ACFA78F590E99917FE44,
      0xBC54A9059AF40AA2DF6CEFE2468827258EA667472685094D1145E51A4D777FA0);
    x, y := Plus(x, y, 65536 * a + 37508, 65536 * b + 2752, GX, GY, 1, 0,
      0x555611E738C221E2BD82175CE151449E3D0AE7A36AB8C5AADC06E71DB846B1DF,
      0xC495AB829645ADB5EA6EBCD6011DEAB30299D7CEAF47249AA685FAA6C4DDC1C0,
      0xE850CD699F17B56D5D631067550BA12F1676F71D1EF464E811E541E6381B1FD2);
  }

  const X8: int := 0xC994B69768832BCBFF5E9AB39AE8D1D3763BBF1E531BED98FE51DE5EE84F50FB
  const Y8: int := 0x483ADA7726A3C4655DA4FBFC0E1108A8FD17B448A68554199C47D08FFB10D4B8

  lemma Chain8(a: int, b: int) returns (x: int, y: int)
    requires GroupFacts() && At(4, X7, Y7, a, b)
    ensures x == X8 && y == Y8 && At(4, x, y, 65536 * a - 5356, 65536 * b - 6972)
  {
    hide GroupFacts, At;
    GAt();
    KAt();
    SAt();
    TAt();
    x, y := X7, Y7;
    x, y := Twice(x, y, a, b,
      0x240EBC025899B1047DA1F4D83F4D38F7222208F4C6E0AD6338A4497355DE8B01,
      0xDA6120247CA7CD64FD93AF0AA682EC468D2563E96A964D04D968618C5D9483A0,
      0x88E6F7A9DCE032E394104FC8189830A4D2C2BF32CE758646E857E87591E23BFD);
    x, y := Twice(x, y, 2 * a, 2 * b,
      0xA2198EF6530D3E023D2E2E93293BAB7C71EB37424490614A9B31F007D8AF364E,
      0xDC8DAC21BB5E998A259EB99E7FB59162F574527FEAF8363A7F6CD378352A577B,
      0xEB75E3AD3C52A156F5C3AAE7F7619FD895A38E0093D3F4B1EEB3A5C5CFF2995F);
    x, y := Twice(x, y, 4 * a, 4 * b,
      0x74BDD94381BBC0098251071617F7CC0043768D00EE44DD1C9C2A855111121D12,
      0x3A80CB99EE3A7B6D684F6AC4AE278AD36DF3BE4806FE1C51B79997E993C7A090,
      0xDE89EE36E9FD8784902E7600D6133C9906C66D5F6831A221D9321244F3D149CB);
    x, y := Plus(x, y, 8 * a, 8 * b, KX, GY, 0, -1,
      0x87D47E4960A569E6691B26ED98420E83599D10CCC7FE306EA3D5668436330901,
      0x5692EC5ED0F4B56F74007658FECCFCB8A9613F7EEE8560DE77AFC0168D7496D3,
      0x3E9B958480A8CFD3618F3C1D28CFBB400D42B480FE1F6024FCD4F5E7400E0A3);
    x, y := Twice(x, y, 8 * a, 8 * b - 1,
      0xE4AB0F06907F9F01DFBAB7EB3CD63FAA05797B8F274DEAF23687AD982DD34101,
      0x3A8F72908ABE39DFB085E29F5F4EC649C388A4A904C46531034CCAC4DC665FA6,
      0xC3EE43B6D135D79509E62A6D02778B06E52DFEBD40794D9859938DEF223E4D19);
    x, y := Plus(x, y, 16 * a, 16 * b - 2, GX, P - GY, -1, 0,
      0x24B1372ABC06D2E1BB4BBAFC878DA054E82ADD1774F9E82EF6493DE1EC087B6,
      0xCC52FD85317F77E7C64B67ADCF02731CAF4B9F2386598E499659DA4F436026F,
      0x3798132BC8B7FA01B137D726CB20A26168C07DD21EFFBDE0D3EA895DEF3BE832);
    x, y := Twice(x, y, 16 * a - 1, 16 * b - 2,
      0x59CAACDAF2EF28F60751934E81218D8A717D0CFFDFF81793427E110B11F754FD,
      0x66C0D568756E2D839380E376C052C3A0A2595785C695745DC1793E295AF364FF,
      0x7D947DE7511FE56514AE49622A1C152BBF3CC5D4EF61D03642A91BC7CB5D4299);
    x, y := Twice(x, y, 32 * a - 2, 32 * b - 4,
      0x62F6FE98611019B0D9FA1C47202378FD545FF180CD7ABA24EB28C395F246EA69,
      0xE8A7ECAA37B0835FE1D4D2E314862260677EFE483E885D3BD384314782529798,
      0xDD0EF01500CC3A8C8C1335D77A02B8CF8AE01DFD1C84C2DE8212EA13379566F8);
    x, y := Plus(x, y, 64 * a - 4, 64 * b - 8, TX, GY, -1, 1,
      0xB96D1C77B8B31C410131153FB123DE75663066C1E6AFD59D221CA963611D4CB5,
      0x3E7CF06A7CA56BA14B381FE56695C71ED325C9D6B9AB292E4F8530F34077BF7E,
      0x3AFB1C4EC0213D9786F8372726B0E7B3FC37BF0CFAEE0A4C7C8B1FD7361A740);
    x, y := Twice(x, y, 64 * a - 5, 64 * b - 7,
      0x236C8C1FB436C162E3B1A7D6F1DF28A361D349B60F26CBC2FD2E97903E55F3CA,
      0xCBF33A18A763EF8F35B2B6E64EB49D825409E36141AA371F00D059372DE70994,
      0x9E74683CA71BA2B2BB21AFB3A13CA45D0F168C88371999C7DDC9996974CA0427);
    x, y := Twice(x, y, 128 * a - 10, 128 * b - 14,
      0x50DDDEB159CA4925531F29F65BF6EE273CC3B83D763474D785A095D1C9021B51,
      0x31EF6B90D78D5470DFC6D5355469DB184E8BE8E3547D3B7C73802D8AAA08124F,
      0x3BC2EA5C27B989C9193176CCF48BD385AC5D4EA348C8EA2BCF3864A3522FB634);
    x, y := Plus(x, y, 256 * a - 20, 256 * b - 28, TX, GY, -1, 1,
      0x3898252D9F6CCC86B574D7794996077BC109E5F6194CBFFCB97DEC089AF030A1,
      0x55B0234F41A1C8F24F9945D78FCA03E59855555DC9E1F6EEC7C1E7A2426339E8,
      0x15F46C42F28EAFFCF8AAF8E663298063EAA03043AA1EECFE7AF8E1CEEB32D550);
    x, y := Twice(x, y, 256 * a - 21, 256 * b - 27,
      0x64BB527A289DDA1F502B7B0B9670F8D17F3683DEAA9380DF75AFC92123A3D7E9,
      0x3B63CB0D5633980EAA17F4C03B2CFDFF1A8B0EE22B10A708F741581E601AD550,
      0x32F9A1383A4786802822FC0D47C31AAC458395A41AA08F80BBA0433F0D772E1E);
    x, y := Twice(x, y, 512 * a - 42, 512 * b - 54,
      0x3FBDEF211ACE1B3767C016C2FE1FC03A0F91E81248EAF004D716A363FEE43D3A,
      0xE2846E7DC4AC66A32A504697288609C129FB4FB8165F9E150D49259DB5D0F845,
      0x24F907363BEBCE641DE1BF08BAB5A90AF657CC9B90E564E4E30E647543BB44B2);
    x, y := Plus(x, y, 1024 * a - 84, 1024 * b - 108, KX, GY, 0, -1,
      0x2AC6F219CA4776E5AF4900F4BF59B980F8819A7C327409CF214FD404D993348D,
      0xC8C5876B3696F9931C97FA9DD35D761E5C1A8FE9EDA5BF111C77FED425057C63,
      0x98DFEF978A5CAF7932ADBA11BD466950545E6FEF5D70831B2A644F699F1A0EC5);
    x, y := Twice(x, y, 1024 * a - 84, 1024 * b - 109,
      0xA2145BA40B630728F5695C7207195EC1EE1AC29DADCDE19CDA3C1E89D4502A00,
      0xE43D311AAD22834C29D9E55E80DE19DFEFEF2283D1ACA3A7EE97DAEEF1CE992B,
      0xAE176AD91CC42E0352546B9EA80D0E221F8F0339AAA9A2898767527E7524B39F);
    x, y := Twice(x, y, 2048 * a - 168, 2048 * b - 218,
      0xE70B85A2527EE36027EFB9FF9783030A98E6C4A23010354C5DD235FAB0AE8370,
      0x3A49BBC6F45D4ECFD3AE401AF8CC75373C19A3FEB208FA607546CCA57CFFD25D,
      0xC9CC94434F92BCC046C34A2730756764E196F24DD144D7F2CB3C1E83DCA5E7BD);
    x, y := Plus(x, y, 4096 * a - 336, 4096 * b - 436, GX, GY, 1, 0,
      0xBD37FA85F1B9105D5BD83FC1FE008562890B1B3CB01C0ED573B69E80467ED9DA,
      0xC0627A1E5CA592325144BC0D28A450DE00C12673C74DFDC6624034A746D6AB40,
      0x21CCFA8E7674835EF92A2C3DA7829C10105F661E0628888D5FBD6FD44F33756B);
    x, y := Twice(x, y, 4096 * a - 335, 4096 * b - 436,
      0x248BEA89C6DE5E7D32A325176FCFB7909FFB5EE88BD09FC2AF8F33F30906D378,
      0xB2A9FE1E95C1D2658987565239CE2A48898F161110A56EB21ED9F2C47581F5E1,
      0x40C535A4577320D9C1B3FE024E0C2BB66081EFC906772DA3BD4312A289048943);
    x, y := Twice(x, y, 8192 * a - 670, 8192 * b - 872,
      0xE70A92B1BAB547FC83A506953903F142CCEAFB26D7781E424543AE41EF1D9468,
      0xE909C2D4A2E624237E283E354755186818742C567345DD996B1697B72FD932EB,
      0x5786F437060543E003E3EB3E0C1AAECA7997D2E3D7D500A16BCD768B7CC2F1AD);
    x, y := Plus(x, y, 16384 * a - 1340, 16384 * b - 1744, SX, SY, 1, 1,
      0x9EC248FE3FBB8059894B7CA2A35A04220AC9A1D7695919ED154F518B1996FD0E,
      0xEE38067DB0C7811D0A5B131DDE99217CAEB39CC3BF3AE9ED8690E8C13A3991B7,
      0x8EBBBFF6E6DDD78CF327DC85B6F0145D501C2D82833EEC943681BC61ECCCEEDA);
    x, y := Twice(x, y, 16384 * a - 1339, 16384 * b - 1743,
      0xE1D301976FB399ADD38A5DD05F54CB8DB6A6E85C3FC58875514735E895DA7AF6,
      0xE484DB4013E80E83052B1267603DEF814791291A8A098469934ED0BC5F7E2739,
      0xC0C686408D517DFD67C2367651380D00D126E4229631FD03F8FF35EEF1A61E3C);
    x, y := Twice(x, y, 32768 * a - 2678, 32768 * b - 3486,
      0x968C0FFB15F4A01415D996DA8F13EFB2FBA8E419D3A2337E2BA82987C6A62C49,
      0xC994B69768832BCBFF5E9AB39AE8D1D3763BBF1E531BED98FE51DE5EE84F50FB,
      0x483ADA7726A3C4655DA4FBFC0E1108A8FD17B448A68554199C47D08FFB10D4B8);
  }

  /** The whole chain ends at the opposite of the last digit. */
  lemma ChainCloses()
    requires GroupFacts()
    ensures CurveAdd(Mul(0x3086D221A7D46BCDE86C90E49284EB15, G()), Mul(0xE4437ED6010E88286F547FA90ABFE4C3, K()))
      == Infinity
  {
    hide GroupFacts, At, Mul, CurveAdd, G, K, OnCurve;
    KAt();
    var a, b := 0, 1;
    var x, y;
    x, y := Chain1(a, b);
    a, b := 65536 * a + 12422, 65536 * b - 7100;
    x, y := Chain2(a, b);
    a, b := 65536 * a + 53794, 65536 * b - 33066;
    x, y := Chain3(a, b);
    a, b := 65536 * a - 22572, 65536 * b + 270;
    x, y := Chain4(a, b);
    a, b := 65536 * a + 27598, 65536 * b + 34856;
    x, y := Chain5(a, b);
    a, b := 65536 * a - 6036, 65536 * b + 28500;
    x, y := Chain6(a, b);
    a, b := 65536 * a + 37092, 65536 * b + 32681;
    x, y := Chain7(a, b);
    a, b := 65536 * a + 37509, 65536 * b + 2752;
    x, y := Chain8(a, b);
    a, b := 65536 * a - 5356, 65536 * b - 6972;
    TAt();
    Cancelled(x, y, a, b, 1, -1);
  }
}
