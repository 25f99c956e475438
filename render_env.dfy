/**
 * What translate_page receives from outside the class: request and settings
 * values, the records it exchanges with the query component and its filters,
 * and the PHP/WordPress helpers it calls, as uninterpreted functions.
 */
module RenderEnv {
  import opened Wrappers
  import opened Dom
  import Strings

  /** A row of get_all_translation_blocks, with the trimmed original computed on load. */
  datatype Block = Block(id: string, original: string, trimmedOriginal: string, blockType: int, status: int)

  /** One entry of get_node_accessors: the selector to search (if any), the view or
      attribute to read and write, and whether it is an attribute. */
  datatype Accessor = Accessor(selector: Option<string>, accessor: string, attribute: bool)

  /** One entry of the `$nodes` array: the node and its type ("block", "button",
      "option", "text" or an accessor key). */
  datatype Candidate = Candidate(node: NodeId, kind: string)

  /** The request: $TRP_LANGUAGE, the trp-edit-translation=preview flag, and the
      values the REST check compares. */
  datatype Request = Request(language: string, preview: bool, curPageUrl: string,
                             restUrl: string, currentFilter: string)

  /** The plugin settings the pipeline reads. */
  datatype Settings = Settings(defaultLanguage: string, translationLanguages: seq<string>,
                               forceLanguageToCustomLinks: string, urlSlugs: map<string, string>)

  /** String helpers: trp_full_trim, trim_translation_block, htmlentities,
      html_entity_decode, htmlspecialchars_decode, esc_attr, is_numeric,
      is_array(json_decode(...)) and remove_trp_html_tags. */
  datatype Lib = Lib(fullTrim: string -> string, trimBlock: string -> string,
                     htmlEntities: string -> string, entityDecode: string -> string,
                     specialCharsDecode: string -> string, escAttr: string -> string,
                     isNumeric: string -> bool, decodesToArray: string -> bool,
                     removeTrpTags: string -> string)

  /** has_ancestor_attribute, has_ancestor_class and the URL helpers. */
  datatype Site = Site(homeUrl: string, adminUrl: string, loginUrl: string,
                       hasAncestorAttribute: (Tree, NodeId, string) -> bool,
                       hasAncestorClass: (Tree, NodeId, string) -> bool,
                       isExternalLink: (string, string) -> bool,
                       isAdminLink: (string, string, string) -> bool,
                       urlIsFile: string -> bool,
                       maybeIsLocalUrl: (string, string) -> string,
                       langFromUrl: string -> Option<string>,
                       urlForLanguage: (string, string) -> string,
                       isDifferentLanguage: string -> bool)

  /** The filters translate_page applies, each as a function of the arguments it is given.
      `jsonReply` stands for the whole JSON branch: Some(reply) when the output decodes
      to JSON different from itself. */
  datatype Hooks = Hooks(stop: string -> bool, beforeTranslate: string -> string,
                         jsonReply: string -> Option<string>,
                         tryFixingHtml: bool, repairHtml: string -> string,
                         noTranslateSelectors: (seq<string>, string) -> seq<string>,
                         translateHref: (bool, Tree, NodeId, string) -> bool,
                         allowMachineTranslation: (string, string, Accessor) -> bool,
                         translateableStrings: (seq<string>, seq<Candidate>) -> (seq<string>, seq<Candidate>),
                         hrefFromTranslatedPage: (string, string) -> string,
                         forceCustomLinks: (string, string, string) -> string,
                         formInputs: (string, string, string) -> string,
                         handleCustomLinks: bool,
                         translatedHtml: (string, string, string, bool) -> string)

  /** The query and translation-manager components: stored blocks per language,
      the merge rules' top parents, the node accessors and process_strings. */
  datatype Store = Store(blocks: string -> seq<Block>, topParents: seq<string>,
                         accessors: seq<(string, Accessor)>,
                         processStrings: (seq<string>, string, seq<string>) -> map<nat, string>)

  const NoTranslateAttribute: string := "data-no-translation"

  /** The selector list 'trp_no_translate_selectors' is given to filter (line 551). */
  const DefaultNoTranslateSelectors: seq<string> := ["#wpadminbar"]
  const MarkerAttribute: string := "data-trpgettextoriginal"
  const LinkProcessedMark: string := "#TRPLINKPROCESSED"

  /** strpos($url, '#TRPLINKPROCESSED') !== false */
  predicate HasLinkMark(url: string) {
    Strings.Contains(url, LinkProcessedMark)
  }

  /** str_replace('#TRPLINKPROCESSED', '', $url) */
  function StripLinkMark(url: string): string {
    Strings.ReplaceAll(url, LinkProcessedMark, "")
  }
}
