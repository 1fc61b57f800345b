/**
  * The two helpers around the chat model: reading a "provider/model" name, and recognising the
  * error a model raises when its input is too long.
  */
module ChatModel {
  import opened Text

  /**
    * `load_chat_model`'s reading of a fully specified name: split at the first '/' into provider
    * and model; with no '/', the provider is "" and the whole name is the model.
    */
  function SplitModelName(name: string): (r: (string, string))
    ensures '/' in name ==> r.0 + "/" + r.1 == name && '/' !in r.0
    ensures '/' !in name ==> r == ("", name)
  {
    if '/' in name then
      var i := IndexOf(name, '/');
      assert name == name[..i] + "/" + name[i + 1..];
      (name[..i], name[i + 1..])
    else ("", name)
  }

  /** A provider without '/' and any model name come back from the joined name, even when the model holds '/'. */
  lemma SplitModelNameRoundTrip(provider: string, model: string)
    requires '/' !in provider
    ensures SplitModelName(provider + "/" + model) == (provider, model)
  {
    var name := provider + "/" + model;
    assert name[|provider|] == '/';
    var r := SplitModelName(name);
    assert r.0 == name[..|provider|] == provider;
    assert r.1 == name[|provider| + 1..] == model;
  }

  /** `is_context_limit_error`: the lower-cased message mentions one of the three phrases. */
  predicate IsContextLimitError(message: string)
  {
    var m := Lower(message);
    Contains(m, "context length") || Contains(m, "token limit") || Contains(m, "input is too long")
  }

  /** The test is an occurrence of one of the phrases in the lower-cased message, wherever it is. */
  lemma ContextLimitErrorIffMentioned(message: string)
    ensures IsContextLimitError(message) <==>
      var m := Lower(message);
      Occurs(m, "context length") || Occurs(m, "token limit") || Occurs(m, "input is too long")
  {
    var m := Lower(message);
    ContainsOccurs(m, "context length");
    ContainsOccurs(m, "token limit");
    ContainsOccurs(m, "input is too long");
  }

  /** Case does not matter: a message and its lower-cased form are classified alike. */
  lemma ContextLimitErrorIgnoresCase(message: string)
    ensures IsContextLimitError(message) <==> IsContextLimitError(Lower(message))
  {
    LowerIdempotent(message);
  }
}
