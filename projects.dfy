/** The project cards' cover image choice: a chain of keyword tests on the
    lowercased project name, the first that passes deciding, with a generic
    placeholder when none does. */
module Projects {
  import opened JsText
  import opened Markup

  /** The cover images (their URLs are opaque here). */
  datatype ProjectAsset =
    | MarketRisk | WhatsAppChat | ScriptClustering | ImageRestoration | SentiChat | CryptoNotes
    | SafePython | Haas | Pokemon | AgileBoard | SwipeToShop | FluidFill | RealtimeStudy | FluxRate
    | Placeholder

  datatype Image = Image(src: ProjectAsset, alt: string)

  /** The keyword tests in source order; a group of two words needs both. */
  const ImageRules: seq<Rule<Image>> :=
    [Rule([["market", "risk"]], Image(MarketRisk, "Market Risk Forecasting Dashboard")),
     Rule([["whatsapp", "chat"]], Image(WhatsAppChat, "WhatsApp Group Chat Analysis")),
     Rule([["clustering", "script"]], Image(ScriptClustering, "Image Clustering for Script Digitalization")),
     Rule([["restoration"]], Image(ImageRestoration, "Image Restoration of Natural Images")),
     Rule([["senti", "chat"]], Image(SentiChat, "Senti Chat")),
     Rule([["crypto", "notes"]], Image(CryptoNotes, "Crypto Notes DApp")),
     Rule([["safe", "python"]], Image(SafePython, "Safe Python Execution Service")),
     Rule([["haas"]], Image(Haas, "HAAS (Heuristic Algorithmic Analysis System)")),
     Rule([["pokemon"]], Image(Pokemon, "Pokémon Game Engine")),
     Rule([["agile", "project"]], Image(AgileBoard, "Agile Project Management App")),
     Rule([["swipe", "shop"]], Image(SwipeToShop, "Swipe-to-Shop Fashion PWA")),
     Rule([["fluidfill"]], Image(FluidFill, "FluidFill — AI Document Automation")),
     Rule([["realtime", "study"]], Image(RealtimeStudy, "Realtime Study Rooms")),
     Rule([["fluxrate"], ["adaptive", "pricing"]], Image(FluxRate, "FluxRate Adaptive Pricing Engine"))]

  /** `projectImage`: the image of the first rule that fires on the lowercased name; when none
      fires, the placeholder with alt text "<name> illustration placeholder". It is never
      `null`, so the card's no-image branch cannot be reached. */
  function ProjectImage(name: string): (r: Option<Image>)
    ensures r.Some?
    ensures r.value.src == Placeholder <==> forall i :: 0 <= i < |ImageRules| ==> !Fires(ImageRules[i], Lower(name))
    ensures r.value.src == Placeholder ==> r.value.alt == name + " illustration placeholder"
    ensures r.value.src != Placeholder ==>
              exists i :: 0 <= i < |ImageRules| && Fires(ImageRules[i], Lower(name)) &&
                          r.value == ImageRules[i].result &&
                          forall j :: 0 <= j < i ==> !Fires(ImageRules[j], Lower(name))
  {
    assert forall i :: 0 <= i < |ImageRules| ==> ImageRules[i].result.src != Placeholder;
    match FirstMatch(ImageRules, Lower(name))
    case Some(img) => Some(img)
    case None => Some(Image(Placeholder, name + " illustration placeholder"))
  }

  /** A rule with one group of two words fires only when the name holds both. */
  lemma FiresBothWords<A>(w1: string, w2: string, a: A, c: string)
    ensures Fires(Rule([[w1, w2]], a), c) <==> Includes(c, w1) && Includes(c, w2)
  {
    if Includes(c, w1) && Includes(c, w2) {
      assert [w1, w2] in [[w1, w2]] && forall x :: x in [w1, w2] ==> Includes(c, x);
    }
  }

  /** The last rule: "fluxrate", or both "adaptive" and "pricing". */
  lemma FluxRateRule(c: string)
    ensures Fires(ImageRules[13], c) <==>
              Includes(c, "fluxrate") || (Includes(c, "adaptive") && Includes(c, "pricing"))
  {
    var groups := [["fluxrate"], ["adaptive", "pricing"]];
    assert ImageRules[13].anyOf == groups;
    if Includes(c, "fluxrate") {
      assert groups[0] in groups && forall x :: x in groups[0] ==> Includes(c, x);
    } else if Includes(c, "adaptive") && Includes(c, "pricing") {
      assert groups[1] in groups && forall x :: x in groups[1] ==> Includes(c, x);
    }
  }

  /** The image depends on the name only up to letter case, apart from the placeholder's
      alt text, which repeats the name as given. */
  lemma ProjectImageIgnoresCase(n1: string, n2: string)
    requires Lower(n1) == Lower(n2)
    ensures ProjectImage(n1).value.src == ProjectImage(n2).value.src
    ensures ProjectImage(n1).value.src != Placeholder ==> ProjectImage(n1) == ProjectImage(n2)
  {
  }
}
