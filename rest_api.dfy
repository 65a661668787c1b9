/**
 * A CRUD service squeezed into one POST endpoint: the request body's
 * "action" field chooses create, update, delete or list, and every handler
 * works on the one global dict `items`. HTTP itself is not modelled: a
 * request is the decoded JSON body (None when there is none) and a reply
 * is the JSON object and status code the handler returns. A Python
 * exception that escapes a handler is a `Failure`.
 */
module RestApi {
  import opened Wrappers
  import opened PyDict
  import opened JsonValue

  type Items = map<Json, Json>

  datatype Response =
    /** {"error": message} with a 4xx status. */
    | ErrorReply(status: nat, error: string)
    /** {"message": m, "items": items} (or just {"items": items} for list) with status 200. */
    | ItemsReply(message: Option<string>, items: Items)
  {
    function Status(): nat {
      match this
      case ErrorReply(status, _) => status
      case ItemsReply(_, _) => 200
    }
  }

  const Unhashable := Error(TypeError, "unhashable type")
  const NoGetOnBody := Error(AttributeError, "object has no attribute 'get'")

  /** A handler's outcome together with the dict after it. */
  datatype Outcome = Outcome(reply: Result<Response>, items: Items)

  function CreateSpec(items: Items, data: Dict<string, Json>): (o: Outcome)
    ensures o.reply == Success(ErrorReply(400, "id and name required")) <==>
      !Truthy(Field(data, "id")) || !Truthy(Field(data, "name"))
    ensures o.reply.Success? && o.reply.value.Status() == 200 ==>
      o.items == items[Field(data, "id") := Field(data, "name")]
  {
    var id, name := Field(data, "id"), Field(data, "name");
    if !Truthy(id) || !Truthy(name) then Outcome(Success(ErrorReply(400, "id and name required")), items)
    else if !Hashable(id) then Outcome(Failure(Unhashable), items)
    else
      var items' := items[id := name];
      Outcome(Success(ItemsReply(Some("created"), items')), items')
  }

  function UpdateSpec(items: Items, data: Dict<string, Json>): (o: Outcome)
    ensures Hashable(Field(data, "id")) ==>
      (o.reply == Success(ErrorReply(404, "item not found")) <==> Field(data, "id") !in items)
  {
    var id, name := Field(data, "id"), Field(data, "name");
    if !Hashable(id) then Outcome(Failure(Unhashable), items)
    else if id !in items then Outcome(Success(ErrorReply(404, "item not found")), items)
    else
      var items' := items[id := name];
      Outcome(Success(ItemsReply(Some("updated"), items')), items')
  }

  function DeleteSpec(items: Items, data: Dict<string, Json>): (o: Outcome)
    ensures Hashable(Field(data, "id")) ==>
      (o.reply == Success(ErrorReply(404, "item not found")) <==> Field(data, "id") !in items)
  {
    var id := Field(data, "id");
    if !Hashable(id) then Outcome(Failure(Unhashable), items)
    else if id !in items then Outcome(Success(ErrorReply(404, "item not found")), items)
    else
      var items' := items - {id};
      Outcome(Success(ItemsReply(Some("deleted"), items')), items')
  }

  function ListSpec(items: Items): (o: Outcome)
    ensures o.items == items && o.reply == Success(ItemsReply(None, items))
  {
    Outcome(Success(ItemsReply(None, items)), items)
  }

  /** The router: reject a missing or falsy body, then dispatch on body["action"]. */
  function RouteSpec(items: Items, body: Option<Json>): Outcome {
    if body.None? || !Truthy(body.value) then Outcome(Success(ErrorReply(400, "invalid json")), items)
    else if !body.value.JObject? then Outcome(Failure(NoGetOnBody), items)
    else
      var data := body.value.fields;
      var action := Field(data, "action");
      if action == JStr("create") then CreateSpec(items, data)
      else if action == JStr("update") then UpdateSpec(items, data)
      else if action == JStr("delete") then DeleteSpec(items, data)
      else if action == JStr("list") then ListSpec(items)
      else Outcome(Success(ErrorReply(400, "unknown action")), items)
  }

  /** The module-level `items` dict and the handlers that change it. */
  class ItemsServer {
    var items: Items

    constructor ()
      ensures items == map[]
    {
      items := map[];
    }

    method HandleCreate(data: Dict<string, Json>) returns (r: Result<Response>)
      modifies this
      ensures Outcome(r, items) == CreateSpec(old(items), data)
    {
      var id := Field(data, "id");
      var name := Field(data, "name");
      if !Truthy(id) || !Truthy(name) {
        return Success(ErrorReply(400, "id and name required"));
      }
      if !Hashable(id) {
        return Failure(Unhashable);
      }
      items := items[id := name];
      r := Success(ItemsReply(Some("created"), items));
    }

    method HandleUpdate(data: Dict<string, Json>) returns (r: Result<Response>)
      modifies this
      ensures Outcome(r, items) == UpdateSpec(old(items), data)
    {
      var id := Field(data, "id");
      var name := Field(data, "name");
      if !Hashable(id) {
        return Failure(Unhashable);
      }
      if id !in items {
        return Success(ErrorReply(404, "item not found"));
      }
      items := items[id := name];
      r := Success(ItemsReply(Some("updated"), items));
    }

    method HandleDelete(data: Dict<string, Json>) returns (r: Result<Response>)
      modifies this
      ensures Outcome(r, items) == DeleteSpec(old(items), data)
    {
      var id := Field(data, "id");
      if !Hashable(id) {
        return Failure(Unhashable);
      }
      if id !in items {
        return Success(ErrorReply(404, "item not found"));
      }
      items := items - {id};
      r := Success(ItemsReply(Some("deleted"), items));
    }

    method HandleList(data: Dict<string, Json>) returns (r: Result<Response>)
      ensures r == ListSpec(items).reply
    {
      r := Success(ItemsReply(None, items));
    }

    method ApiRouter(body: Option<Json>) returns (r: Result<Response>)
      modifies this
      ensures Outcome(r, items) == RouteSpec(old(items), body)
    {
      if body.None? || !Truthy(body.value) {
        return Success(ErrorReply(400, "invalid json"));
      }
      if !body.value.JObject? {
        return Failure(NoGetOnBody);
      }
      var data := body.value.fields;
      var action := Field(data, "action");
      if action == JStr("create") {
        r := HandleCreate(data);
      } else if action == JStr("update") {
        r := HandleUpdate(data);
      } else if action == JStr("delete") {
        r := HandleDelete(data);
      } else if action == JStr("list") {
        r := HandleList(data);
      } else {
        r := Success(ErrorReply(400, "unknown action"));
      }
    }
  }

  // ---------------------------------------------------------------------
  // Properties of the router
  // ---------------------------------------------------------------------

  /** A request body that asks for `action` with the given other fields. */
  function Request(action: string, fields: Dict<string, Json>): Option<Json> {
    Some(JObject([("action", JStr(action))] + fields))
  }

  /** No reply other than 200 changes `items`, and neither does an escaping exception. */
  lemma FailuresChangeNothing(items: Items, body: Option<Json>)
    ensures var o := RouteSpec(items, body);
      (o.reply.Failure? || o.reply.value.Status() != 200) ==> o.items == items
  {
  }

  /** Every 200 reply of a mutating action carries the whole dict after the change. */
  lemma SuccessCarriesEverything(items: Items, body: Option<Json>)
    ensures var o := RouteSpec(items, body);
      o.reply.Success? && o.reply.value.ItemsReply? ==> o.reply.value.items == o.items
  {
  }

  /** A missing or falsy body is "invalid json"; an unrecognised action is "unknown action". */
  lemma RouterRejects(items: Items, body: Option<Json>)
    ensures body.None? || !Truthy(body.value) ==>
      RouteSpec(items, body) == Outcome(Success(ErrorReply(400, "invalid json")), items)
    ensures (body.Some? && body.value.JObject? && body.value.fields != [] &&
      Field(body.value.fields, "action") !in {JStr("create"), JStr("update"), JStr("delete"), JStr("list")}) ==>
      RouteSpec(items, body) == Outcome(Success(ErrorReply(400, "unknown action")), items)
  {
  }

  /** Create writes items[id] = name even when the id already exists: there is no conflict check. */
  lemma CreateOverwrites(items: Items, id: string, name: string, previous: string)
    requires JStr(id) in items && items[JStr(id)] == JStr(previous) && id != [] && name != []
    ensures RouteSpec(items, Request("create", [("id", JStr(id)), ("name", JStr(name))])).items[JStr(id)]
      == JStr(name)
  {
    var fields := [("id", JStr(id)), ("name", JStr(name))];
    FieldCons("name", JStr(name), [], "id");
    FieldCons("id", JStr(id), [("name", JStr(name))], "id");
    FieldCons("id", JStr(id), [("name", JStr(name))], "name");
    FieldCons("name", JStr(name), [], "name");
    assert Field(fields, "id") == JStr(id) && Field(fields, "name") == JStr(name);
    CreateRequest(items, fields);
  }

  /** A create request reaches CreateSpec with the body's own fields. */
  lemma CreateRequest(items: Items, fields: Dict<string, Json>)
    requires Truthy(Field(fields, "id")) && Truthy(Field(fields, "name")) && Hashable(Field(fields, "id"))
    ensures RouteSpec(items, Request("create", fields)).items == items[Field(fields, "id") := Field(fields, "name")]
  {
    var data := [("action", JStr("create"))] + fields;
    FieldCons("action", JStr("create"), fields, "action");
    FieldCons("action", JStr("create"), fields, "id");
    FieldCons("action", JStr("create"), fields, "name");
    assert RouteSpec(items, Request("create", fields)) == CreateSpec(items, data);
  }

  /** Update of a present id stores the body's name even when it is missing (None). */
  lemma UpdateStoresMissingName(items: Items, id: string)
    requires JStr(id) in items
    ensures RouteSpec(items, Request("update", [("id", JStr(id))])).items == items[JStr(id) := JNull]
  {
    FieldCons("id", JStr(id), [], "id");
    FieldCons("id", JStr(id), [], "name");
    FieldCons("action", JStr("update"), [("id", JStr(id))], "id");
    FieldCons("action", JStr("update"), [("id", JStr(id))], "name");
  }

  /** Delete of a present id removes exactly that key; any other id reads the same. */
  lemma DeleteRemovesOnly(items: Items, data: Dict<string, Json>)
    requires Hashable(Field(data, "id")) && Field(data, "id") in items
    ensures DeleteSpec(items, data).reply == Success(ItemsReply(Some("deleted"), DeleteSpec(items, data).items))
    ensures DeleteSpec(items, data).items.Keys == items.Keys - {Field(data, "id")}
    ensures forall k :: k in DeleteSpec(items, data).items ==> DeleteSpec(items, data).items[k] == items[k]
  {
  }

  /** After a successful create, list returns a dict holding id -> name. */
  lemma CreateThenList(items: Items, data: Dict<string, Json>)
    requires Truthy(Field(data, "id")) && Truthy(Field(data, "name")) && Hashable(Field(data, "id"))
    ensures var o := CreateSpec(items, data);
      ListSpec(o.items).reply.value.items[Field(data, "id")] == Field(data, "name")
  {
  }

  /** Create then delete of a new id gives the original dict back. */
  lemma CreateThenDelete(items: Items, data: Dict<string, Json>)
    requires Truthy(Field(data, "id")) && Truthy(Field(data, "name")) && Hashable(Field(data, "id"))
    requires Field(data, "id") !in items
    ensures DeleteSpec(CreateSpec(items, data).items, data).items == items
  {
    var id := Field(data, "id");
    assert items[id := Field(data, "name")] - {id} == items;
  }
}
