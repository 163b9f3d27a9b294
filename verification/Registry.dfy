/** The schema registry: names and message ids in one-to-one correspondence. */
module Registry {
  import opened Wire
  import opened Schema

  datatype Registration = Registered | DuplicateName | DuplicateMessageId | InvalidSchema

  datatype Registry = Registry(byName: map<string, SchemaDef>, nameOf: map<u16, string>) {
    function FindByName(name: string): Option<SchemaDef>
    {
      if name in byName then Some(byName[name]) else None
    }

    function FindById(id: u16): Option<SchemaDef>
    {
      if id in nameOf then FindByName(nameOf[id]) else None
    }

    ghost predicate Valid()
    {
      && (forall name :: name in byName ==>
            var s := byName[name];
            s.name == name && ValidSchema(s) && s.messageId in nameOf && nameOf[s.messageId] == name)
      && (forall id :: id in nameOf ==> nameOf[id] in byName && byName[nameOf[id]].messageId == id)
    }

    /** What the validator finds in a schema on its own, and against the schemas that are registered. */
    predicate Acceptable(schema: SchemaDef)
    {
      && schema.name != "" && schema.fields != [] && schema.messageId != 0 && Distinct(schema.fields)
      && (schema.name in byName ==> byName[schema.name].messageId == schema.messageId)
      && (FindById(schema.messageId).Some? ==> FindById(schema.messageId).value.name == schema.name)
    }

    /** Validation followed by registration: a clash of name or id is invalid, the same schema again a duplicate. */
    function Register(schema: SchemaDef): (Registry, Registration)
    {
      if !Acceptable(schema) then (this, InvalidSchema)
      else if schema.name in byName then (this, DuplicateName)
      else if schema.messageId in nameOf then (this, DuplicateMessageId)
      else (Registry(byName[schema.name := schema], nameOf[schema.messageId := schema.name]), Registered)
    }

    /** Registration keeps the correspondence, and a registered schema is found by name and by id. */
    lemma RegisterKeeps(schema: SchemaDef)
      requires Valid()
      ensures var (r, status) := Register(schema);
        && r.Valid()
        && (status.Registered? ==>
              r.FindByName(schema.name) == Some(schema) && r.FindById(schema.messageId) == Some(schema))
    {
    }

    /** Every outcome, in terms of what is registered: a duplicate message id is never reported as such. */
    lemma RegisterOutcomes(schema: SchemaDef)
      requires Valid()
      ensures var status := Register(schema).1;
        && (status == Registered <==>
              && schema.name != "" && ValidSchema(schema) && schema.messageId != 0
              && schema.name !in byName && schema.messageId !in nameOf)
        && (status == DuplicateName <==>
              && ValidSchema(schema) && schema.name != "" && schema.messageId != 0
              && schema.name in byName && byName[schema.name].messageId == schema.messageId)
        && status != DuplicateMessageId
    {
    }

    lemma FoundById(schema: SchemaDef)
      requires Valid() && FindByName(schema.name) == Some(schema)
      ensures FindById(schema.messageId) == Some(schema) && ValidSchema(schema)
    {
    }

    lemma FoundIsRegistered(id: u16)
      requires Valid() && FindById(id).Some?
      ensures var s := FindById(id).value; s.messageId == id && ValidSchema(s) && FindByName(s.name) == Some(s)
    {
    }
  }

  function NoSchemas(): (r: Registry)
    ensures r.Valid()
  {
    Registry(map[], map[])
  }
}
