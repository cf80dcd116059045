/** Gunny's rendering context: the tables that `register_template` and
    `register_view` fill. The Handlebars registry is the set of template
    names it holds; hashing and template compilation are parameters. */
module GunnyContext {
  import opened Wrappers

  /** A view as the tables see it: its name and the names of the
      templates it renders with. Its script context is not modelled. */
  datatype View = View(name: string, select: string, templateId: string, outputPatternId: string)

  datatype Error =
    | TemplateAlreadyExists(template: string)
    | ViewAlreadyExists(view: string)
    /** Handlebars could not compile the template. */
    | TemplateError

  /** The template tables: the names Handlebars holds and the map from
      content hash to the name last registered with that content. */
  datatype Templates = Templates(names: set<string>, hashes: map<string, string>)

  /** The outcome of a registration and the tables afterwards. */
  datatype Registration = Registration(result: Result<(), Error>, after: Templates)

  /** The name recorded for a hash, or the empty name. */
  function NameForHash(hashes: map<string, string>, hash: string): string {
    if hash in hashes then hashes[hash] else ""
  }

  /** `register_template`: a known name is accepted only with the content
      recorded under it; a new name is recorded under its content hash
      first and then compiled. */
  function RegisterTemplateSpec(t: Templates, name: string, template: string,
                                sha256: string -> string, compiles: string -> bool): Registration
  {
    var hash := sha256(template);
    if name in t.names then
      if NameForHash(t.hashes, hash) == name then Registration(Ok(()), t)
      else Registration(Err(TemplateAlreadyExists(name)), t)
    else
      var hashes := t.hashes[hash := name];
      if compiles(template) then Registration(Ok(()), Templates(t.names + {name}, hashes))
      else Registration(Err(TemplateError), Templates(t.names, hashes))
  }

  /** A name registered with the content recorded under it is accepted
      again and nothing changes. */
  lemma AlreadyRegistered(t: Templates, name: string, template: string,
                          sha256: string -> string, compiles: string -> bool)
    requires name in t.names && sha256(template) in t.hashes && t.hashes[sha256(template)] == name
    ensures RegisterTemplateSpec(t, name, template, sha256, compiles) == Registration(Ok(()), t)
  {
  }

  /** A name registered with other content is refused and nothing
      changes; the empty name with unrecorded content is the one
      exception, since an unrecorded hash reads as the empty name. */
  lemma DuplicateNameRefused(t: Templates, name: string, template: string,
                             sha256: string -> string, compiles: string -> bool)
    requires name in t.names
    ensures var reg := RegisterTemplateSpec(t, name, template, sha256, compiles);
      reg.after == t &&
      (reg.result.Err? <==> NameForHash(t.hashes, sha256(template)) != name) &&
      (reg.result.Err? ==> reg.result == Err(TemplateAlreadyExists(name)))
    ensures sha256(template) in t.hashes && t.hashes[sha256(template)] != name ==>
      RegisterTemplateSpec(t, name, template, sha256, compiles).result == Err(TemplateAlreadyExists(name))
    ensures sha256(template) !in t.hashes ==>
      (RegisterTemplateSpec(t, name, template, sha256, compiles).result.Ok? <==> name == "")
  {
  }

  /** A new name is recorded under the content's hash whether or not it
      compiles, replacing any earlier name for that content; it joins the
      registry exactly when it compiles. */
  lemma NewNameRecorded(t: Templates, name: string, template: string,
                        sha256: string -> string, compiles: string -> bool)
    requires name !in t.names
    ensures var reg := RegisterTemplateSpec(t, name, template, sha256, compiles);
      reg.after.hashes == t.hashes[sha256(template) := name] &&
      (reg.result.Ok? <==> compiles(template)) &&
      (reg.result.Err? ==> reg.result == Err(TemplateError) && reg.after.names == t.names) &&
      (reg.result.Ok? ==> reg.after.names == t.names + {name})
  {
  }

  /** Registering the same template twice under the same name: the second
      call is accepted and changes nothing, once the first compiled. */
  lemma {:induction false} RegisterTwice(t: Templates, name: string, template: string,
                                         sha256: string -> string, compiles: string -> bool)
    requires compiles(template)
    ensures var first := RegisterTemplateSpec(t, name, template, sha256, compiles);
      first.result.Ok? ==>
        RegisterTemplateSpec(first.after, name, template, sha256, compiles) == Registration(Ok(()), first.after)
  {
    var first := RegisterTemplateSpec(t, name, template, sha256, compiles);
    if first.result.Ok? && name !in t.names {
      NewNameRecorded(t, name, template, sha256, compiles);
      AlreadyRegistered(first.after, name, template, sha256, compiles);
    }
  }

  /** The hash table keeps the latest name for a content: the same
      template registered under two new names is recorded under the
      second, whether or not either compiled. */
  lemma {:induction false} LatestNamePerHash(t: Templates, a: string, b: string, template: string,
                                             sha256: string -> string, compiles: string -> bool)
    requires a !in t.names && b !in t.names && a != b
    ensures var first := RegisterTemplateSpec(t, a, template, sha256, compiles);
      var second := RegisterTemplateSpec(first.after, b, template, sha256, compiles);
      second.after.hashes[sha256(template)] == b &&
      second.after.hashes == t.hashes[sha256(template) := b]
  {
    var first := RegisterTemplateSpec(t, a, template, sha256, compiles);
    NewNameRecorded(t, a, template, sha256, compiles);
    assert b !in first.after.names;
    NewNameRecorded(first.after, b, template, sha256, compiles);
  }

  /** A template that fails to compile leaves its hash recorded under a
      name Handlebars does not hold, so every later registration of that
      name is new again. */
  lemma FailedCompileLeavesHash(t: Templates, name: string, template: string,
                                sha256: string -> string, compiles: string -> bool)
    requires name !in t.names && !compiles(template)
    ensures var reg := RegisterTemplateSpec(t, name, template, sha256, compiles);
      reg.result == Err(TemplateError) &&
      reg.after.hashes[sha256(template)] == name && name !in reg.after.names
  {
  }

  /** `register_view`: a view name already present is refused. */
  function RegisterViewSpec(views: map<string, View>, view: View): (Result<(), Error>, map<string, View>) {
    if view.name in views then (Err(ViewAlreadyExists(view.name)), views)
    else (Ok(()), views[view.name := view])
  }

  /** Every view is filed under its own name. */
  ghost predicate ViewsByName(views: map<string, View>) {
    forall n :: n in views ==> views[n].name == n
  }

  /** `register_view` keeps views filed under their names, refuses a
      present name and leaves the table as it was, and otherwise adds the
      view and changes no other entry. */
  lemma RegisterViewKeepsNames(views: map<string, View>, view: View)
    requires ViewsByName(views)
    ensures var (r, after) := RegisterViewSpec(views, view);
      ViewsByName(after) &&
      (r.Err? <==> view.name in views) &&
      (r.Err? ==> r == Err(ViewAlreadyExists(view.name)) && after == views) &&
      (r.Ok? ==> after.Keys == views.Keys + {view.name} && after[view.name] == view &&
                 (forall n :: n in views ==> after[n] == views[n]))
  {
  }

  /** The execution context of a rendering operation. */
  class Context {
    /** The template names the Handlebars registry holds. */
    var templates: set<string>
    /** Content hash to the name last registered with that content. */
    var templateHashes: map<string, string>
    var views: map<string, View>

    ghost predicate Valid()
      reads this
    {
      ViewsByName(views)
    }

    /** `Context::default`. */
    constructor()
      ensures Valid()
      ensures templates == {} && templateHashes == map[] && views == map[]
    {
      templates := {};
      templateHashes := map[];
      views := map[];
    }

    /** `register_template`, with the content hash and Handlebars'
        compilation as parameters. */
    method RegisterTemplate(name: string, template: string,
                            sha256: string -> string, compiles: string -> bool)
      returns (r: Result<(), Error>)
      requires Valid()
      modifies this
      ensures Valid()
      ensures var reg := RegisterTemplateSpec(Templates(old(templates), old(templateHashes)),
                                              name, template, sha256, compiles);
        r == reg.result && templates == reg.after.names && templateHashes == reg.after.hashes
      ensures views == old(views)
    {
      var hash := sha256(template);
      var nameForHash := if hash in templateHashes then templateHashes[hash] else "";
      if name in templates {
        if nameForHash == name {
          return Ok(());
        }
        return Err(TemplateAlreadyExists(name));
      }
      templateHashes := templateHashes[hash := name];
      if !compiles(template) {
        return Err(TemplateError);
      }
      templates := templates + {name};
      r := Ok(());
    }

    /** `register_view`. */
    method RegisterView(view: View) returns (r: Result<(), Error>)
      requires Valid()
      modifies this
      ensures Valid()
      ensures (r, views) == RegisterViewSpec(old(views), view)
      ensures templates == old(templates) && templateHashes == old(templateHashes)
    {
      var name := view.name;
      if name in views {
        return Err(ViewAlreadyExists(name));
      }
      RegisterViewKeepsNames(views, view);
      views := views[name := view];
      r := Ok(());
    }
  }
}
