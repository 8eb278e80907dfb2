/**
 * applyEditsToBlock (RescueEditor/js/templating/html/html-templating.js):
 * the edit form of a block is folded into template data, the block's
 * template is rendered with it, and the block is updated and re-rendered
 * through the persistence handlers.
 *
 * The template engine is a parameter: `render(template, data)` is what
 * renderTemplate answers for the template value and the folded data.
 */
module BlockEditing {
  import opened Wrappers
  import opened Json
  import opened Composite
  import opened HtmlTemplating
  import opened HtmlComposite
  import opened HtmlPersistence

  /** Why applyEditsToBlock throws. */
  datatype EditError =
    | HandlerFailed(cause: HandlerError)   // one of the triggered handlers threw
    | NoTemplate(id: int)                  // the block's template data has no `template`

  /** The template data the block is updated with: its template, and the folded form under `jsonArray`. */
  function EditedData(template: Value, form: seq<FormField>): (d: Fields)
    ensures Get(d, "template") == Some(template)
    ensures Get(d, "jsonArray") == Some(Obj(FoldForm(form)))
  {
    [("template", template), ("jsonArray", Obj(FoldForm(form)))]
  }

  /**
   * The three triggers in order: get-node-template-data, update-node with
   * the rendered template, render-node-html. The block is updated in place
   * and keeps its id, parent and children; the answer is its new rendering.
   */
  method ApplyEditsToBlock(p: Persistence, blockId: int, form: seq<FormField>, render: (Value, Fields) -> string)
    returns (r: Result<string, EditError>)
    requires p.Valid()
    modifies p.forest
    ensures p.Valid() && p.forest.nextId == old(p.forest.nextId)
    ensures var x := Lookup(old(p.forest.View()), p.root, blockId);
            && (x.Err? ==> r == Err(HandlerFailed(x.error)) && p.forest.nodes == old(p.forest.nodes))
            && (x.Ok? ==>
                  var t := Get(old(p.forest.nodes)[x.value].payload.templateData, "template");
                  && (t.None? ==> r == Err(NoTemplate(blockId)) && p.forest.nodes == old(p.forest.nodes))
                  && (t.Some? ==>
                        var html := render(t.value, FoldForm(form));
                        && p.forest.nodes == old(p.forest.nodes)[x.value := old(p.forest.nodes)[x.value].(payload := HtmlData(html, EditedData(t.value, form)))]
                        && r == Ok(Render(Shape(p.forest.View(), x.value)))))
  {
    ghost var s := p.forest.View();
    var templateData := p.GetNodeTemplateData(blockId);
    if templateData.Err? {
      return Err(HandlerFailed(templateData.error));
    }
    var template := Get(templateData.value, "template");
    if template.None? {
      return Err(NoTemplate(blockId));
    }
    var newData := FormDataToMap(form);
    var rendered := render(template.value, newData);
    var updated := p.UpdateNode(blockId, rendered, [("template", template.value), ("jsonArray", Obj(newData))]);
    LookupExtends(s, p.forest.View(), p.root, blockId);
    var html := p.RenderNodeHtml(blockId);
    return Ok(html.value);
  }
}
