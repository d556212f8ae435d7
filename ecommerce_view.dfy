/**
 The sample view class `Services\View\EcommerceView`, stored at
 src/Services/View/EcommerceView.php, as the input the helpers of
 `CodeGen` see, and what they make of it.
 */
module EcommerceViewSample {
  import opened PhpStrings
  import opened Sequences
  import opened CodeGen

  /** The short name of the sample class. */
  const ShortName: string := "EcommerceView"

  /** Where the sample class is stored. */
  const File: string := "src/Services/View/" + ShortName + ".php"

  function Param(name: string): ReflectedParameter
  {
    ReflectedParameter(name, false)
  }

  function OptionalParam(name: string): ReflectedParameter
  {
    ReflectedParameter(name, true)
  }

  // The public methods of the class, as reflection reports them.
  const MontarSelectEcommerces := ReflectedMethod("_montarSelectEcommerces",
    [Param("plataformasLiberadas"), OptionalParam("params")])
  const ObterSelectEcommerces := ReflectedMethod("obterSelectEcommerces",
    [Param("opcoes"), OptionalParam("params"), OptionalParam("plataformas"), OptionalParam("retornarDados")])
  const GerarLinksWebhooks := ReflectedMethod("gerarLinksWebhooks", [Param("idEcommerce"), Param("webhooks")])
  const ObterDadosPopupWebhookTerceiros := ReflectedMethod("obterDadosPopupWebhookTerceiros",
    [Param("plataforma"), Param("idEcommerce")])
  const ObterPlataforma := ReflectedMethod("_obterPlataforma", [Param("id")])
  const ObterComAdicionais := ReflectedMethod("_obterComAdicionais", [Param("id")])
  const ObterOptionsTipoAnuncio := ReflectedMethod("obterOptionsTipoAnuncio", [Param("plataforma")])
  const ReenviarUrlWebhookEcommerce := ReflectedMethod("reenviarUrlWebhookEcommerce", [Param("idEcommerce")])

  /** The public methods in declaration order. */
  const Methods: seq<ReflectedMethod> :=
    [MontarSelectEcommerces, ObterSelectEcommerces, GerarLinksWebhooks, ObterDadosPopupWebhookTerceiros,
     ObterPlataforma, ObterComAdicionais, ObterOptionsTipoAnuncio, ReenviarUrlWebhookEcommerce]

  // The three steps of the class name for a file stored directly in
  // src/Services/View/. The search and replacement strings are parameters
  // so that the solver works with the lemmas above instead of evaluating
  // the replacement character by character.

  /** "src/" is removed only at the front: the later 's' is followed by '/', and the file name holds no '/'. */
  lemma ServicesViewWithoutSrc(name: string, src: string, none: string)
    requires src == "src/" && none == "" && '/' !in name
    ensures ReplaceAll("src/Services/View/" + name + ".php", src, none) == "Services/View/" + name + ".php"
  {
    var tail := name + ".php";
    assert '/' !in tail;
    var rest := "Service" + (['s'] + ("/View/" + tail));
    assert "src/Services/View/" + name + ".php" == src + rest;
    assert "Services/View/" + name + ".php" == rest;
    calc {
      ReplaceAll(src + rest, src, none);
      { ReplaceAllMatch(rest, src, none); }
      none + ReplaceAll(rest, src, none);
      { ReplaceAllSkip("Service", ['s'] + ("/View/" + tail), src, none); }
      none + ("Service" + ReplaceAll(['s'] + ("/View/" + tail), src, none));
      { ReplaceAllSkipNear('s', "/View/" + tail, src, none); }
      none + ("Service" + (['s'] + ReplaceAll("/View/" + tail, src, none)));
      { ReplaceAllSkip("/View/", tail, src, none); }
      none + ("Service" + (['s'] + ("/View/" + ReplaceAll(tail, src, none))));
      { ReplaceAllAbsentChar(tail, src, none, '/'); }
      none + ("Service" + (['s'] + ("/View/" + tail)));
      rest;
    }
  }

  /** Both remaining slashes become backslashes. */
  lemma ServicesViewBackslashed(name: string, slash: string, backslash: string)
    requires slash == "/" && backslash == "\\" && '/' !in name
    ensures ReplaceAll("Services/View/" + name + ".php", slash, backslash) == "Services\\View\\" + name + ".php"
  {
    var tail := name + ".php";
    assert '/' !in tail;
    calc {
      ReplaceAll("Services/View/" + name + ".php", slash, backslash);
      { assert "Services/View/" + name + ".php" == "Services" + (slash + ("View" + (slash + tail))); }
      ReplaceAll("Services" + (slash + ("View" + (slash + tail))), slash, backslash);
      { ReplaceAllSkip("Services", slash + ("View" + (slash + tail)), slash, backslash); }
      "Services" + ReplaceAll(slash + ("View" + (slash + tail)), slash, backslash);
      { ReplaceAllMatch("View" + (slash + tail), slash, backslash); }
      "Services" + (backslash + ReplaceAll("View" + (slash + tail), slash, backslash));
      { ReplaceAllSkip("View", slash + tail, slash, backslash); }
      "Services" + (backslash + ("View" + ReplaceAll(slash + tail, slash, backslash)));
      { ReplaceAllMatch(tail, slash, backslash); }
      "Services" + (backslash + ("View" + (backslash + ReplaceAll(tail, slash, backslash))));
      { ReplaceAllAbsentChar(tail, slash, backslash, '/'); }
      "Services" + (backslash + ("View" + (backslash + tail)));
      { assert "Services" + (backslash + ("View" + (backslash + tail))) == "Services\\View\\" + name + ".php"; }
      "Services\\View\\" + name + ".php";
    }
  }

  /** ".php" is cut off the end. */
  lemma ServicesViewWithoutExtension(name: string, php: string, none: string)
    requires php == ".php" && none == "" && '.' !in name
    ensures ReplaceAll("\\Services\\View\\" + name + ".php", php, none) == "\\Services\\View\\" + name
  {
    assert '.' !in "\\Services\\View\\" + name;
    ReplaceAllSuffix("\\Services\\View\\" + name, php);
  }

  /**
   The class name of a view class stored directly in src/Services/View/
   whose file name holds no '/' and no '.': its namespace is
   `Services\View` and its short name is the file name.
   */
  lemma ClassOfServicesViewFile(file: string, name: string)
    requires '/' !in name && '.' !in name
    requires file == "src/Services/View/" + name + ".php"
    ensures ClassFromFileName(file) == "\\Services\\View\\" + name
  {
    calc {
      ClassFromFileName(file);
      ReplaceAll("\\" + ReplaceAll(ReplaceAll(file, "src/", ""), "/", "\\"), ".php", "");
      { ServicesViewWithoutSrc(name, "src/", ""); }
      ReplaceAll("\\" + ReplaceAll("Services/View/" + name + ".php", "/", "\\"), ".php", "");
      { ServicesViewBackslashed(name, "/", "\\"); }
      ReplaceAll("\\" + ("Services\\View\\" + name + ".php"), ".php", "");
      { assert "\\" + ("Services\\View\\" + name + ".php") == "\\Services\\View\\" + name + ".php"; }
      ReplaceAll("\\Services\\View\\" + name + ".php", ".php", "");
      { ServicesViewWithoutExtension(name, ".php", ""); }
      "\\Services\\View\\" + name;
    }
  }

  /** The class name derived from the file agrees with the file's namespace and class. */
  lemma ClassOfEcommerceView()
    ensures ClassFromFileName(File) == "\\Services\\View\\EcommerceView"
  {
    ClassOfServicesViewFile(File, ShortName);
    assert "\\Services\\View\\" + ShortName == "\\Services\\View\\EcommerceView";
  }

  /** Three directories and a file name, joined by a separator none of them holds, split back apart. */
  lemma ExplodeThreeDirectories(d1: string, d2: string, d3: string, last: string, sep: char)
    requires sep !in d1 && sep !in d2 && sep !in d3 && sep !in last
    ensures Explode(d1 + [sep] + (d2 + [sep] + (d3 + [sep] + last)), sep) == [d1, d2, d3, last]
  {
    ExplodeNoSeparator(last, sep);
    ExplodeSegment(d3, last, sep);
    ExplodeSegment(d2, d3 + [sep] + last, sep);
    ExplodeSegment(d1, d2 + [sep] + (d3 + [sep] + last), sep);
  }

  /** The "/"-segments of a file stored directly in src/Services/View/. */
  lemma ExplodeServicesViewFile(file: string, last: string)
    requires '/' !in last
    requires file == "src/Services/View/" + last
    ensures Explode(file, '/') == ["src", "Services"] + [ViewSegment] + [last]
  {
    assert file == "src" + ['/'] + ("Services" + ['/'] + ("View" + ['/'] + last));
    ExplodeThreeDirectories("src", "Services", "View", last, '/');
  }

  /**
   The view path of a view class stored directly in src/Services/View/
   whose file name holds no '/' and no '.': only the file name follows the
   "View" segment, and ".php" is cut off it.
   */
  lemma ViewPathOfServicesViewFile(file: string, name: string, php: string)
    requires '/' !in name && '.' !in name && php == ".php"
    requires file == "src/Services/View/" + name + ".php"
    ensures ViewPath(file) == name
  {
    var last := name + php;
    assert '/' !in last;
    calc {
      ViewPath(file);
      ReplaceAll(Implode(ViewSegments(Explode(file, '/')), "/"), php, "");
      { ExplodeServicesViewFile(file, last); }
      ReplaceAll(Implode(ViewSegments(["src", "Services"] + [ViewSegment] + [last]), "/"), php, "");
      { ViewSegmentsAfterFirstView(["src", "Services"], [last]);
        FilterSingleton(last, NotView); }
      ReplaceAll(Implode([last], "/"), php, "");
      ReplaceAll(name + php, php, "");
      { ReplaceAllSuffix(name, php); }
      name;
    }
  }

  /** The view path is the part after "View", without ".php". */
  lemma ViewPathOfEcommerceView()
    ensures ViewPath(File) == "EcommerceView"
  {
    ViewPathOfServicesViewFile(File, ShortName, ".php");
  }

  /** The record for a method when it is exposed, nothing otherwise. */
  function Kept(m: ReflectedMethod): seq<MethodRecord>
  {
    if IsExposed(m.name) then [Describe(m)] else []
  }

  /** Four methods are described one at a time, in their order. */
  lemma ViewMethodsOfFour(a: ReflectedMethod, b: ReflectedMethod, c: ReflectedMethod, d: ReflectedMethod)
    ensures ViewMethods([a, b, c, d]) == Kept(a) + Kept(b) + Kept(c) + Kept(d)
  {
    calc {
      ViewMethods([a, b, c, d]);
      { assert [a, b, c, d] == [a] + [b, c, d]; ViewMethodsCons(a, [b, c, d]); }
      Kept(a) + ViewMethods([b, c, d]);
      { assert [b, c, d] == [b] + [c, d]; ViewMethodsCons(b, [c, d]); }
      Kept(a) + (Kept(b) + ViewMethods([c, d]));
      { assert [c, d] == [c] + [d]; ViewMethodsCons(c, [d]); }
      Kept(a) + (Kept(b) + (Kept(c) + ViewMethods([d])));
      { ViewMethodsSingleton(d); }
      Kept(a) + (Kept(b) + (Kept(c) + Kept(d)));
      Kept(a) + Kept(b) + Kept(c) + Kept(d);
    }
  }

  /** Of the first four methods, only the one starting with "_" is dropped. */
  lemma ExposedMethodsOfFirstHalf()
    ensures ViewMethods([MontarSelectEcommerces, ObterSelectEcommerces, GerarLinksWebhooks, ObterDadosPopupWebhookTerceiros])
      == [Describe(ObterSelectEcommerces), Describe(GerarLinksWebhooks), Describe(ObterDadosPopupWebhookTerceiros)]
  {
    ViewMethodsOfFour(MontarSelectEcommerces, ObterSelectEcommerces, GerarLinksWebhooks, ObterDadosPopupWebhookTerceiros);
    assert !IsExposed(MontarSelectEcommerces.name);
    assert IsExposed(ObterSelectEcommerces.name) && IsExposed(GerarLinksWebhooks.name)
      && IsExposed(ObterDadosPopupWebhookTerceiros.name);
  }

  /** Of the last four methods, the two starting with "_" are dropped. */
  lemma ExposedMethodsOfSecondHalf()
    ensures ViewMethods([ObterPlataforma, ObterComAdicionais, ObterOptionsTipoAnuncio, ReenviarUrlWebhookEcommerce])
      == [Describe(ObterOptionsTipoAnuncio), Describe(ReenviarUrlWebhookEcommerce)]
  {
    ViewMethodsOfFour(ObterPlataforma, ObterComAdicionais, ObterOptionsTipoAnuncio, ReenviarUrlWebhookEcommerce);
    assert !IsExposed(ObterPlataforma.name) && !IsExposed(ObterComAdicionais.name);
    assert IsExposed(ObterOptionsTipoAnuncio.name) && IsExposed(ReenviarUrlWebhookEcommerce.name);
  }

  /**
   The three methods whose names start with "_" are dropped; the other
   five are kept in declaration order, each with its parameter records.
   */
  lemma ExposedMethodsOfEcommerceView()
    ensures ViewMethods(Methods) ==
      [Describe(ObterSelectEcommerces), Describe(GerarLinksWebhooks), Describe(ObterDadosPopupWebhookTerceiros),
       Describe(ObterOptionsTipoAnuncio), Describe(ReenviarUrlWebhookEcommerce)]
  {
    var first := [MontarSelectEcommerces, ObterSelectEcommerces, GerarLinksWebhooks, ObterDadosPopupWebhookTerceiros];
    var second := [ObterPlataforma, ObterComAdicionais, ObterOptionsTipoAnuncio, ReenviarUrlWebhookEcommerce];
    calc {
      ViewMethods(Methods);
      { assert Methods == first + second; }
      ViewMethods(first + second);
      { ViewMethodsAppend(first, second); }
      ViewMethods(first) + ViewMethods(second);
      { ExposedMethodsOfFirstHalf(); ExposedMethodsOfSecondHalf(); }
      [Describe(ObterSelectEcommerces), Describe(GerarLinksWebhooks), Describe(ObterDadosPopupWebhookTerceiros)]
        + [Describe(ObterOptionsTipoAnuncio), Describe(ReenviarUrlWebhookEcommerce)];
    }
  }
}
